# Minesweeper board engine

This project models the board engine of a small minesweeper game written in
Rust (`src/main.rs`, the `Game` struct and its cell types).

A board is a `height x width` grid of cells, indexed `field[y][x]`. Each cell
has a *content* and a *visibility*:

- the content is a mine, or an empty cell that stores how many mines lie in
  its 3x3 block;
- the visibility is Hidden, Revealed or Flagged.

The game is Playing, Won or Lost. The engine does five things:

1. It places mines by rejection sampling on a fresh grid.
2. It fills in every non-mine cell's count.
3. It reveals cells, cascading through the blocks of zero-count cells.
4. It toggles flags.
5. It decides when the game is lost or won.

The model is split into four modules:

- `Cells` (`cells.dfy`): the value types.
- `Field` (`field.dfy`): the grid as a value (`seq<seq<CellStatus>>`). It holds
  the lookup, the neighbourhood, mine counting, the placement and counting
  passes as relations, and the flag toggle.
- `Cascade` (`cascade.dfy`): how a reveal changes the grid, the board
  invariant it keeps, the lemmas that chain one nested reveal into the
  cascade, and the proof that this description fixes the outcome.
- `Minesweeper` (`game.dfy`):
  - the placement loop and the counting loops as methods over the grid value;
  - the class `Game`. Its `field` and `state` are updated in place by the
    recursive reveal and the flag toggle, and its two board scans are
    nested loops with early return.

The random generator is replaced by a parameter: the sequence of coordinates
it would draw, in order. The constructor's precondition asks for enough
distinct in-bounds coordinates for the rejection loop to stop. Two lemmas
show that such a sequence exists exactly when the mines to be placed fit on
the board.

The board invariant `Cascade.Consistent` has four parts:

- the grid has the stated size;
- every non-mine cell stores its block's mine count;
- a won game has no Hidden cell;
- the game is lost exactly when a mine is Revealed.

The constructor establishes it, and both mutators keep it.

The model keeps these quirks of the code:

- The neighbourhood of a cell is its whole 3x3 block, the cell itself
  included. A non-mine cell never counts itself, so stored counts lie
  between 0 and 8.
- The placement loop tests its exit condition after each pass, so asking for
  zero mines places one (`Field.MinesPlaced`).
- The placement loop ends for any mine count up to `width * height`, the
  full board included.
- The engine has no error results. A board with too many mines, a zero width
  or a zero height never finishes construction, and the constructor's
  precondition excludes it.

## Model

| member | source | states |
|---|---|---|
| Cells.NewCell | src/main.rs:34-39 | a new cell is Hidden and holds no mine, with a stored count of 0 |
| Cells.GameState.IsPlaying | src/main.rs:62-64 | the game is on exactly when it is neither won nor lost |
| Cells.Toggled | src/main.rs:172-176 | Hidden and Flagged swap, and Revealed stays; a non-Revealed visibility always changes |
| Cells.ToggledTwice | src/main.rs:172-176 | toggling a visibility twice gives it back |
| Field.GetCellBounds | src/main.rs:125-127 | on a `width x height` grid the lookup succeeds exactly when `x < width` and `y < height`, and then returns the cell stored in row `y`, column `x` |
| Field.Put | src/main.rs:129-131 | a write through the mutable lookup changes the addressed cell only and keeps the grid's shape |
| Field.BlockShape | src/main.rs:135-140 | the raw block has nine positions `(x+dx, y+dy)` for dx, dy in -1..1, dx outer and dy inner, and holds exactly the positions within one step |
| Field.KeepInBounds | src/main.rs:141-146 | the bounds filter keeps exactly the positions inside the grid, converted to coordinates; sorted input gives sorted output |
| Field.Neighbours | src/main.rs:134-147 | a coordinate is a neighbour of `c` exactly when it is on the grid and within one step of `c`, `c` itself included; at most 9 neighbours, listed in dx-outer, dy-inner order |
| Field.MinesAroundIsBlockMines | src/main.rs:108-113 | the neighbour count equals the number of mine cells in the 3x3 block |
| Field.MinesAroundAtMostEight | src/main.rs:107-113 | a non-mine cell's count is at most 8, because its own position is counted and holds no mine |
| Field.StoredCountAtMostEight | src/main.rs:104-120 | on a board whose counts are right, every stored count is at most 8 |
| Field.ZeroMinesIn | src/main.rs:157-159 | a zero count means none of the counted neighbours holds a mine |
| Field.CountStep | src/main.rs:115-117 | storing a count in a non-mine cell keeps every mine and every block count |
| Field.CountingNext | src/main.rs:104-117 | visiting (x, y) in the counting pass gives a non-mine cell its block's count and skips a mine |
| Field.CountingPut | src/main.rs:107-117 | storing the count of a visited non-mine cell keeps the cells visited earlier correct, and mines and visibilities untouched |
| Field.CountingColumnDone | src/main.rs:104-105 | finishing a column moves the counting pass to the top of the next column |
| Field.CountingDone | src/main.rs:104-120 | after the last column every non-mine cell stores its block's count |
| Field.ToggleField | src/main.rs:172-177 | toggling changes only the target's visibility, Hidden to Flagged and back, and keeps every content |
| Field.ToggleFieldTwice | src/main.rs:172-177 | toggling the same cell twice restores the grid |
| Field.StopsAtUnique | src/main.rs:91-101 | the number of proposals the placement loop uses is determined by the proposals |
| Field.PlacingNext | src/main.rs:95-98 | one placement pass turns a cell without a mine into a hidden mine and counts it, and leaves a mine alone; the mines stay exactly on the distinct proposals drawn |
| Field.PlacingStops | src/main.rs:99-101 | where the loop breaks, it has used the stopping number of proposals and placed `MinesPlaced(mines)` mines |
| Field.MinesPlaced | src/main.rs:91-101 | the loop places `mines` mines, and one when `mines` is 0 |
| Field.ProposalsLeft | src/main.rs:91-94 | while too few mines are placed, a proposal is left to draw, so the loop never runs dry |
| Field.PlacementFits | src/main.rs:91-101 | the constructor's precondition implies that the mines fit on the board |
| Field.ProposalsExist | src/main.rs:91-101 | whenever the mines fit on the board, proposals meeting the constructor's precondition exist |
| Cascade.CountsKept | src/main.rs:155 | changing visibilities only keeps every stored count correct |
| Cascade.HiddenShrinks | src/main.rs:155 | uncovering a Hidden cell shrinks the set of Hidden cells, the measure that makes the recursion end |
| Cascade.OnlyRevealsTrans | src/main.rs:157-159 | two reveals in a row only turn Hidden cells into Revealed ones |
| Cascade.RevealNoop | src/main.rs:150-154 | a reveal on a finished game, off the grid or on a non-Hidden cell changes nothing |
| Cascade.CascadeStart | src/main.rs:155-157 | uncovering a hidden zero-count cell keeps the board invariant, and no neighbour of that cell holds a mine |
| Cascade.CascadeProgress | src/main.rs:157-159 | during the cascade there are fewer Hidden cells than at the start of the call |
| Cascade.CascadeStep | src/main.rs:157-159 | a nested reveal of the next neighbour keeps the cascade's invariant: the neighbour is no longer Hidden and no mine was uncovered |
| Cascade.CascadeEnd | src/main.rs:157-160 | after all neighbours no neighbour of the centre is Hidden, so every newly revealed zero-count cell has its block uncovered |
| Cascade.UncoverCount | src/main.rs:155-156 | uncovering a hidden cell with a positive count reveals that cell alone and keeps the board invariant |
| Cascade.MineFinish | src/main.rs:155-162 | uncovering a hidden mine reveals that cell alone and loses the game |
| Cascade.SafeFinish | src/main.rs:163-165 | after a safe reveal the game is won when no Hidden cell is left and goes on otherwise |
| Cascade.SafeStep | src/main.rs:157-159 | no mine is uncovered by a nested reveal started next to a zero-count cell |
| Cascade.ClosedStep | src/main.rs:157-159 | zero-count cells uncovered earlier in the cascade keep their uncovered blocks |
| Cascade.ChainPrepend | src/main.rs:157-159 | a chain of a nested reveal, with the zero-count cell it started next to put in front, is a chain of the enclosing reveal |
| Cascade.ReachedStep | src/main.rs:157-159 | after a nested reveal next to the uncovered zero-count target, every newly revealed cell is still reached from the target by a chain of adjacent newly revealed cells, each but the last a zero-count cell |
| Cascade.ChainInside | src/main.rs:155-160 | every cell on a chain from the target is uncovered by any reveal of the target that leaves no uncovered zero-count cell with a Hidden neighbour |
| Cascade.ReachedInOther | src/main.rs:155-160 | a cell one cascade from the target reaches is uncovered by every other closed cascade from the same target |
| Cascade.SameRevealsSameGrid | src/main.rs:155 | two reveals of the same grid that only uncover cells and uncover the same cells give the same grid |
| Cascade.RevealDetermined | src/main.rs:149-168 | at most one grid and game state satisfy the reveal outcome from a given board: the cascade uncovers exactly the cells reachable from the target through zero-count cells, and no others |
| Cascade.NoMineRevealedKept | src/main.rs:155-163 | a reveal that uncovers no mine leaves the board without a revealed mine |
| Minesweeper.FreshGrid | src/main.rs:80-85 | the starting grid has the stated size and every cell is a hidden zero-count cell |
| Minesweeper.PlaceMines | src/main.rs:87-102 | the loop yields a grid of the stated size whose only changes are hidden mines. There are `MinesPlaced(mines)` of them, sitting exactly on the distinct proposals up to where the loop stops |
| Minesweeper.CountMinesAround | src/main.rs:108-113 | the inner loop counts exactly the mines among the neighbours |
| Minesweeper.FillCounts | src/main.rs:104-120 | the counting pass keeps mines and visibilities and leaves every non-mine cell storing its block's count |
| Minesweeper.Game.constructor | src/main.rs:79-123 | a new game is Playing with every cell Hidden, `MinesPlaced(mines)` mines on the distinct proposals up to the stopping point, and correct counts |
| Minesweeper.Game.RevealFieldChecked | src/main.rs:149-168 | keeps the board invariant. Only Hidden cells become Revealed and no content changes. A reveal on a finished game, off the grid or on a non-Hidden cell changes nothing. Otherwise the target is Revealed and the game is lost on a mine, won when no Hidden cell is left, and still on otherwise. No other mine is uncovered, each newly revealed zero-count cell has no Hidden neighbour left, and each newly revealed cell is reached from the target by a chain of adjacent newly revealed cells, each but the last a zero-count cell. By `Cascade.RevealDetermined` these facts fix the new grid and state |
| Minesweeper.Game.ToggleFlagChecked | src/main.rs:170-183 | keeps the board invariant. A finished game or an off-grid coordinate changes nothing. Otherwise only the target's visibility toggles, and the game is won exactly when the target holds a mine and no Hidden cell is left |
| Minesweeper.Game.IsLost | src/main.rs:185-195 | true exactly when some mine is Revealed, which on a valid board means the game is lost |
| Minesweeper.Game.IsFullyRevealedAndMarked | src/main.rs:197-207 | true exactly when no cell is Hidden |

## Left out

- `main` (src/main.rs:9-12) is process start-up and is not modelled.
- The `App` user interface (src/main.rs:214-316) is not part of this model. It draws the board and forwards clicks to the reveal and toggle operations.
- `Display for GameState` (src/main.rs:50-59) is string formatting only.
- The random generator (src/main.rs:87, 92-93) becomes the `proposals` parameter of the constructor. The model does not say how likely any board is.
- Minesweeper.Game.constructor: it requires enough distinct in-bounds proposals. With too many mines the loop never ends, and with a zero width or height drawing a coordinate panics. Neither case is modelled.
- The `isize` casts in the neighbourhood computation are modelled as unbounded integers followed by the bounds filter. `usize` widths and counts are unbounded `nat`s, since no count exceeds the number of cells.
- Field.Put: a write through `get_cell_mut` is modelled as building a new grid value. The class then reassigns `field`, so aliasing between cell references is not modelled.
- Minesweeper.Game.IsLost and Minesweeper.Game.IsFullyRevealedAndMarked require the grid to have the board's stated size. On any other grid the source scans only the stated rectangle.
