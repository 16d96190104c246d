/** The board engine: a `width x height` grid of cells plus the game state,
    built with mines and counts, then changed by reveals and flag toggles. */
module Minesweeper {
  import opened Cells
  import opened Field
  import opened Cascade

  /** The grid `new` starts from: `height` rows of `width` new cells. */
  function FreshGrid(width: nat, height: nat): (f: Grid)
    ensures Shaped(f, width, height)
    ensures forall c :: InGrid(f, c) ==> At(f, c) == NewCell()
  {
    seq(height, _ => seq(width, _ => NewCell()))
  }

  /** The rejection-sampling loop on a fresh grid: each proposal that lands
      on a non-mine cell turns it into a hidden mine; the loop stops once at
      least `mines` mines are placed, testing that only after each pass. */
  method PlaceMines(width: nat, height: nat, mines: nat, proposals: seq<Coordinate>) returns (grid: Grid)
    requires forall i :: 0 <= i < |proposals| ==> proposals[i].x < width && proposals[i].y < height
    requires |Elems(proposals)| >= MinesPlaced(mines)
    ensures Shaped(grid, width, height) && OnlyMinesPlaced(grid)
    ensures |MineSet(grid, width, height)| == MinesPlaced(mines)
    ensures exists k: nat :: StopsAt(proposals, mines, k) && MineSet(grid, width, height) == Elems(proposals[..k])
  {
    grid := FreshGrid(width, height);
    NoMinesYet(grid, width, height);
    var placed: nat := 0;
    var i := 0;
    while true
      invariant Placing(grid, width, height, proposals, i, placed)
      invariant i > 0 ==> placed < mines
      decreases |proposals| - i
    {
      ProposalsLeft(proposals, mines, i);
      var p := proposals[i];
      PlacingNext(grid, width, height, proposals, i, placed);
      if grid[p.y][p.x].content.Empty? {
        grid := Put(grid, p, CellStatus(Mine, Hidden));
        placed := placed + 1;
      }
      i := i + 1;
      if placed >= mines {
        PlacingStops(proposals, mines, i, placed);
        break;
      }
    }
  }

  /** The counting pass: every non-mine cell, column by column, gets the
      number of mines in its 3x3 block; nothing else changes. */
  method FillCounts(grid: Grid, width: nat, height: nat) returns (counted: Grid)
    requires Shaped(grid, width, height)
    ensures Shaped(counted, width, height)
    ensures SameMines(grid, counted)
    ensures forall c :: InGrid(counted, c) ==> At(counted, c).status == At(grid, c).status
    ensures forall c :: IsMineAt(counted, c) ==> At(counted, c) == At(grid, c)
    ensures CountsConsistent(counted, width, height)
  {
    counted := grid;
    for x := 0 to width
      invariant CountedUpTo(grid, counted, width, height, x, 0)
    {
      for y := 0 to height
        invariant CountedUpTo(grid, counted, width, height, x, y)
      {
        var coord := Coordinate(x, y);
        CountingNext(grid, counted, width, height, x, y);
        match GetCell(counted, coord)
        case Some(CellStatus(Empty(_), status)) =>
          var mineCount := CountMinesAround(counted, width, height, coord);
          counted := Put(counted, coord, CellStatus(Empty(mineCount), status));
        case _ =>
      }
      CountingColumnDone(grid, counted, width, height, x);
    }
    CountingDone(grid, counted, width, height);
  }

  /** The inner count of the counting pass: walks the neighbours of `c` and
      counts those holding a mine. */
  method CountMinesAround(grid: Grid, width: nat, height: nat, c: Coordinate) returns (mineCount: nat)
    ensures mineCount == MinesAround(grid, width, height, c)
  {
    var nbrs := Neighbours(width, height, c);
    mineCount := 0;
    for i := 0 to |nbrs|
      invariant mineCount == MinesIn(grid, nbrs[..i])
    {
      assert nbrs[..i + 1][..i] == nbrs[..i];
      match GetCell(grid, nbrs[i])
      case Some(CellStatus(Mine, _)) =>
        mineCount := mineCount + 1;
      case _ =>
    }
    assert nbrs[..|nbrs|] == nbrs;
  }

  class Game {
    const width: nat
    const height: nat
    var field: Grid
    var state: GameState

    /** The board invariant, `Consistent` on the current grid and state. */
    ghost predicate Valid()
      reads this
    {
      Consistent(field, state, width, height)
    }

    /** Builds a board. The random generator is replaced by `proposals`, the
        coordinates it would draw, in order; they must hold enough distinct
        cells for the loop to stop, which also rules out a zero width or
        height (where drawing panics) and more mines than cells (where the
        loop never ends). */
    constructor (width: nat, height: nat, mines: nat, proposals: seq<Coordinate>)
      requires forall i :: 0 <= i < |proposals| ==> proposals[i].x < width && proposals[i].y < height
      requires |Elems(proposals)| >= MinesPlaced(mines)
      ensures Valid()
      ensures this.width == width && this.height == height && state == Playing
      ensures AllHidden(field)
      ensures |MineSet(field, width, height)| == MinesPlaced(mines)
      ensures exists k: nat :: StopsAt(proposals, mines, k) && MineSet(field, width, height) == Elems(proposals[..k])
    {
      this.width := width;
      this.height := height;
      var mined := PlaceMines(width, height, mines, proposals);
      var grid := FillCounts(mined, width, height);
      MineSetSame(mined, grid, width, height);
      assert AllHidden(grid) by {
        forall c | InGrid(grid, c) ensures At(grid, c).status == Hidden {
          assert InGrid(mined, c);
        }
      }
      field := grid;
      state := Playing;
    }

    /** Reveals a cell. Nothing happens when the game is over, the coordinate
        is off the board or the cell is not Hidden. Otherwise the cell becomes
        Revealed, a zero-count cell reveals its whole block in turn, and then
        a revealed mine loses the game while a board with no Hidden cell left
        wins it. Each nested call either returns at once or uncovers a Hidden
        cell, so the set of Hidden cells shrinks. */
    method RevealFieldChecked(c: Coordinate)
      requires Valid()
      modifies this
      decreases HiddenSet(field, width, height)
      ensures Valid()
      ensures RevealOutcome(old(field), old(state), field, state, c, width, height)
    {
      if !state.IsPlaying() {
        RevealNoop(field, state, c, width, height);
        return;
      }
      match GetCell(field, c)
      case None =>
        RevealNoop(field, state, c, width, height);
      case Some(cell) =>
        if cell.status == Hidden {
          field := Put(field, c, CellStatus(cell.content, Revealed));
          if cell.content == Empty(0) {
            var nbrs := Neighbours(width, height, c);
            CascadeStart(old(field), old(state), c, width, height);
            for i := 0 to |nbrs|
              invariant Valid()
              invariant Cascading(old(field), field, state, c, nbrs, i, width, height)
            {
              ghost var before, stateBefore := field, state;
              CascadeProgress(old(field), field, state, c, nbrs, i, width, height);
              RevealFieldChecked(nbrs[i]);
              CascadeStep(old(field), before, stateBefore, field, state, c, nbrs, i, width, height);
            }
            CascadeEnd(old(field), field, state, c, nbrs, width, height);
          } else if cell.content != Mine {
            UncoverCount(old(field), old(state), c, width, height);
          }
          if cell.content == Mine {
            MineFinish(old(field), old(state), c, width, height);
            state := Lost;
          } else {
            ghost var cascaded := state;
            var full := IsFullyRevealedAndMarked();
            if full {
              state := Won;
            }
            SafeFinish(old(field), old(state), field, cascaded, state, c, width, height);
          }
        } else {
          RevealNoop(field, state, c, width, height);
        }
    }

    /** Toggles the flag on a cell while the game is on: Hidden and Flagged
        swap, Revealed stays. Toggling a mine cell when no Hidden cell is left
        wins the game. */
    method ToggleFlagChecked(c: Coordinate)
      requires Valid()
      modifies this
      ensures Valid()
      ensures !old(state).IsPlaying() || !InGrid(old(field), c) ==> field == old(field) && state == old(state)
      ensures old(state).IsPlaying() && InGrid(old(field), c) ==>
                && field == ToggleField(old(field), c)
                && state == if At(old(field), c).content == Mine && NoHidden(field) then Won else Playing
    {
      if !state.IsPlaying() {
        return;
      }
      match GetCell(field, c)
      case None =>
      case Some(cell) =>
        if cell.status == Hidden {
          field := Put(field, c, CellStatus(cell.content, Flagged));
        } else if cell.status == Flagged {
          field := Put(field, c, CellStatus(cell.content, Hidden));
        }
        if cell.status == Revealed {
          PutSame(old(field), c);
        }
        assert field == ToggleField(old(field), c);
        CountsKept(old(field), field, width, height);
        assert !MineRevealed(field) by {
          forall z | InGrid(field, z) ensures At(field, z) != CellStatus(Mine, Revealed) {
            assert At(old(field), z) != CellStatus(Mine, Revealed);
          }
        }
        if cell.content == Mine {
          var full := IsFullyRevealedAndMarked();
          if full {
            state := Won;
          }
        }
    }

    /** Scans the board, column by column, for a revealed mine. */
    method IsLost() returns (lost: bool)
      requires Shaped(field, width, height)
      ensures lost <==> MineRevealed(field)
      ensures Valid() ==> (lost <==> state == Lost)
    {
      for x := 0 to width
        invariant forall c :: InGrid(field, c) && c.x < x ==> At(field, c) != CellStatus(Mine, Revealed)
      {
        for y := 0 to height
          invariant forall c :: InGrid(field, c) && (c.x < x || (c.x == x && c.y < y)) ==>
                      At(field, c) != CellStatus(Mine, Revealed)
        {
          var coord := Coordinate(x, y);
          match GetCell(field, coord)
          case Some(CellStatus(Mine, Revealed)) =>
            return true;
          case _ =>
        }
      }
      return false;
    }

    /** Scans the board, column by column, for a Hidden cell. */
    method IsFullyRevealedAndMarked() returns (full: bool)
      requires Shaped(field, width, height)
      ensures full <==> NoHidden(field)
    {
      for x := 0 to width
        invariant forall c :: InGrid(field, c) && c.x < x ==> At(field, c).status != Hidden
      {
        for y := 0 to height
          invariant forall c :: InGrid(field, c) && (c.x < x || (c.x == x && c.y < y)) ==>
                      At(field, c).status != Hidden
        {
          var coord := Coordinate(x, y);
          match GetCell(field, coord)
          case Some(CellStatus(_, Hidden)) =>
            return false;
          case _ =>
        }
      }
      return true;
    }
  }
}
