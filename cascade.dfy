/** How a reveal changes the board: the relations between the grid before and
    after, the board invariant they keep, and the lemmas that chain a nested
    reveal into the cascade around a zero-count cell. */
module Cascade {
  import opened Cells
  import opened Field

  /** The board invariant on a grid `f` with game state `s`: the grid has the
      stated size, every non-mine cell stores its block's mine count, a won
      game has no Hidden cell, and the game is lost exactly when a mine has
      been revealed. */
  ghost predicate Consistent(f: Grid, s: GameState, width: nat, height: nat) {
    && Shaped(f, width, height)
    && CountsConsistent(f, width, height)
    && (s == Won ==> NoHidden(f))
    && (s == Lost <==> MineRevealed(f))
  }

  /* ---------- What a reveal may change ---------- */


  /** `b` has the shape of `a` and every cell keeps its content. */
  ghost predicate SameContents(a: Grid, b: Grid) {
    && |b| == |a| && (forall y :: 0 <= y < |a| ==> |b[y]| == |a[y]|)
    && forall c :: InGrid(a, c) ==> At(b, c).content == At(a, c).content
  }

  /** `b` differs from `a` only in cells that went from Hidden to Revealed. */
  ghost predicate OnlyReveals(a: Grid, b: Grid) {
    && SameContents(a, b)
    && forall c :: InGrid(a, c) ==>
         At(b, c).status == At(a, c).status || (At(a, c).status == Hidden && At(b, c).status == Revealed)
  }

  /** `c` was Hidden in `a` and is Revealed in `b`. */
  ghost predicate NewlyRevealed(a: Grid, b: Grid, c: Coordinate) {
    InGrid(a, c) && InGrid(b, c) && At(a, c).status == Hidden && At(b, c).status == Revealed
  }

  /** No cell revealed on the way from `a` to `b` is a mine, except perhaps `target`. */
  ghost predicate CascadeSafe(a: Grid, b: Grid, target: Coordinate) {
    forall c :: NewlyRevealed(a, b, c) && c != target ==> At(a, c).content != Mine
  }

  /** No neighbour of `c` is Hidden in `b`. */
  ghost predicate Settled(b: Grid, width: nat, height: nat, c: Coordinate) {
    forall n :: n in Neighbours(width, height, c) ==> InGrid(b, n) && At(b, n).status != Hidden
  }

  /** Every newly revealed zero-count cell has had its whole block uncovered or flagged. */
  ghost predicate CascadeClosed(a: Grid, b: Grid, width: nat, height: nat) {
    forall c :: NewlyRevealed(a, b, c) && At(a, c).content == Empty(0) ==> Settled(b, width, height, c)
  }

  /** The cascade steps from `z` to `n`: `z` is a zero-count cell of `a` and `n` lies in its block. */
  ghost predicate Link(a: Grid, z: Coordinate, n: Coordinate) {
    InGrid(a, z) && At(a, z).content == Empty(0) && Adjacent(z, n)
  }

  /** `p` is a path the cascade can take from `a` to `b`: every cell on it is
      newly revealed, and every cell before the last is a zero-count cell
      adjacent to the next one. */
  ghost predicate Chain(a: Grid, b: Grid, p: seq<Coordinate>) {
    && |p| >= 1
    && (forall i :: 0 <= i < |p| ==> NewlyRevealed(a, b, p[i]))
    && (forall i {:trigger Link(a, p[i], p[i + 1])} :: 0 <= i < |p| - 1 ==> Link(a, p[i], p[i + 1]))
  }

  /** Some cascade path leads from `target` to `c`. */
  ghost predicate ReachedFrom(a: Grid, b: Grid, target: Coordinate, c: Coordinate) {
    exists p :: Chain(a, b, p) && p[0] == target && p[|p| - 1] == c
  }

  /** Each newly revealed cell is reached from `target` through newly revealed zero-count cells. */
  ghost predicate CascadeReached(a: Grid, b: Grid, target: Coordinate) {
    forall c :: NewlyRevealed(a, b, c) ==> ReachedFrom(a, b, target, c)
  }

  /* ---------- Lemmas about a reveal ---------- */

  /** Keeping every content keeps every mine where it was. */
  lemma ContentsKeepMines(a: Grid, b: Grid)
    requires SameContents(a, b)
    ensures SameMines(a, b)
  {
    forall n ensures IsMineAt(a, n) <==> IsMineAt(b, n) {
      if InGrid(a, n) {
        assert At(b, n).content == At(a, n).content;
      }
    }
  }

  /** Keeping every content keeps every stored count correct. */
  lemma CountsKept(a: Grid, b: Grid, width: nat, height: nat)
    requires Shaped(a, width, height) && SameContents(a, b) && CountsConsistent(a, width, height)
    ensures Shaped(b, width, height) && CountsConsistent(b, width, height)
  {
    ContentsKeepMines(a, b);
    forall c | InGrid(b, c) && At(b, c).content.Empty?
      ensures At(b, c).content.n == MinesAround(b, width, height, c)
    {
      assert At(a, c).content == At(b, c).content;
      MinesInSameMines(a, b, Neighbours(width, height, c));
    }
  }

  /** A reveal that uncovered at least the hidden cell `t` leaves fewer hidden cells. */
  lemma HiddenShrinks(a: Grid, b: Grid, width: nat, height: nat, t: Coordinate)
    requires Shaped(a, width, height) && OnlyReveals(a, b)
    requires InGrid(a, t) && At(a, t).status == Hidden && At(b, t).status != Hidden
    ensures HiddenSet(b, width, height) < HiddenSet(a, width, height)
  {
    InCells(width, height, t);
    assert t in HiddenSet(a, width, height) && t !in HiddenSet(b, width, height);
  }

  lemma SettledKept(m: Grid, b: Grid, width: nat, height: nat, z: Coordinate)
    requires OnlyReveals(m, b) && Settled(m, width, height, z)
    ensures Settled(b, width, height, z)
  {
    forall n | n in Neighbours(width, height, z)
      ensures InGrid(b, n) && At(b, n).status != Hidden
    {
      assert InGrid(m, n);
    }
  }

  /** Every newly revealed zero-count cell other than `c` has a settled block. */
  ghost predicate ClosedExcept(a: Grid, b: Grid, width: nat, height: nat, c: Coordinate) {
    forall z :: NewlyRevealed(a, b, z) && z != c && At(a, z).content == Empty(0) ==> Settled(b, width, height, z)
  }

  /** Chaining a nested reveal from `m` to `b` after a partial reveal from `a` to `m`. */
  lemma ClosedStep(a: Grid, m: Grid, b: Grid, width: nat, height: nat, c: Coordinate)
    requires OnlyReveals(a, m) && OnlyReveals(m, b)
    requires ClosedExcept(a, m, width, height, c) && CascadeClosed(m, b, width, height)
    ensures ClosedExcept(a, b, width, height, c)
  {
    forall z | NewlyRevealed(a, b, z) && z != c && At(a, z).content == Empty(0)
      ensures Settled(b, width, height, z)
    {
      if At(m, z).status == Revealed {
        assert NewlyRevealed(a, m, z);
        SettledKept(m, b, width, height, z);
      } else {
        assert NewlyRevealed(m, b, z);
      }
    }
  }

  lemma SafeStep(a: Grid, m: Grid, b: Grid, c: Coordinate, n: Coordinate)
    requires OnlyReveals(a, m) && OnlyReveals(m, b)
    requires CascadeSafe(a, m, c) && CascadeSafe(m, b, n)
    requires InGrid(a, n) ==> At(a, n).content != Mine
    ensures CascadeSafe(a, b, c)
  {
    forall z | NewlyRevealed(a, b, z) && z != c
      ensures At(a, z).content != Mine
    {
      if At(m, z).status == Revealed {
        assert NewlyRevealed(a, m, z);
      } else {
        assert NewlyRevealed(m, b, z);
      }
    }
  }

  /** A cascade path from `a` to `m` remains one when `b` reveals more. */
  lemma ChainWiden(a: Grid, m: Grid, b: Grid, p: seq<Coordinate>)
    requires OnlyReveals(a, m) && OnlyReveals(m, b) && Chain(a, m, p)
    ensures Chain(a, b, p)
  {
    forall i | 0 <= i < |p|
      ensures NewlyRevealed(a, b, p[i])
    {
      assert NewlyRevealed(a, m, p[i]);
      assert InGrid(m, p[i]);
    }
  }

  /** A path of a nested reveal from `m` to `b`, started next to the newly
      revealed zero-count cell `c`, extends to a path from `c` from `a` to `b`. */
  lemma ChainPrepend(a: Grid, m: Grid, b: Grid, c: Coordinate, p: seq<Coordinate>)
    requires OnlyReveals(a, m) && OnlyReveals(m, b) && Chain(m, b, p)
    requires NewlyRevealed(a, m, c) && At(a, c).content == Empty(0) && Adjacent(c, p[0])
    ensures Chain(a, b, [c] + p)
  {
    var q := [c] + p;
    assert InGrid(b, c);
    forall i | 0 <= i < |q|
      ensures NewlyRevealed(a, b, q[i])
    {
      if i > 0 {
        assert q[i] == p[i - 1];
        assert NewlyRevealed(m, b, p[i - 1]);
        assert InGrid(a, p[i - 1]);
      }
    }
    forall i | 0 <= i < |q| - 1
      ensures Link(a, q[i], q[i + 1])
    {
      if i > 0 {
        var k := i - 1;
        assert Link(m, p[k], p[k + 1]);
        assert q[i] == p[k] && q[i + 1] == p[k + 1];
        assert InGrid(a, p[k]);
      }
    }
  }

  /** The first and last cells of `[c] + p`. */
  lemma PrependEnds(c: Coordinate, p: seq<Coordinate>)
    requires |p| >= 1
    ensures ([c] + p)[0] == c && ([c] + p)[|[c] + p| - 1] == p[|p| - 1]
  {
  }

  /** A cascade path reaches its last cell from its first. */
  lemma ChainReaches(a: Grid, b: Grid, p: seq<Coordinate>, s: Coordinate, t: Coordinate)
    requires Chain(a, b, p) && p[0] == s && p[|p| - 1] == t
    ensures ReachedFrom(a, b, s, t)
  {
  }

  /** A nested reveal from `n`, next to the uncovered zero-count cell `c`,
      keeps every newly revealed cell reached from `c`. */
  lemma ReachedStep(a: Grid, m: Grid, b: Grid, c: Coordinate, n: Coordinate)
    requires OnlyReveals(a, m) && OnlyReveals(m, b)
    requires CascadeReached(a, m, c) && CascadeReached(m, b, n)
    requires NewlyRevealed(a, m, c) && At(a, c).content == Empty(0) && Adjacent(c, n)
    ensures CascadeReached(a, b, c)
  {
    forall z | NewlyRevealed(a, b, z)
      ensures ReachedFrom(a, b, c, z)
    {
      assert InGrid(m, z);
      if At(m, z).status == Revealed {
        ReachedEarlier(a, m, b, c, z);
      } else {
        ReachedNested(a, m, b, c, n, z);
      }
    }
  }

  /** A cell reached before the nested reveal keeps its path. */
  lemma ReachedEarlier(a: Grid, m: Grid, b: Grid, c: Coordinate, z: Coordinate)
    requires OnlyReveals(a, m) && OnlyReveals(m, b)
    requires CascadeReached(a, m, c) && NewlyRevealed(a, m, z)
    ensures ReachedFrom(a, b, c, z)
  {
    var p :| Chain(a, m, p) && p[0] == c && p[|p| - 1] == z;
    ChainWiden(a, m, b, p);
  }

  /** A cell the nested reveal from `n` reached is reached from `c` through `n`. */
  lemma ReachedNested(a: Grid, m: Grid, b: Grid, c: Coordinate, n: Coordinate, z: Coordinate)
    requires OnlyReveals(a, m) && OnlyReveals(m, b)
    requires CascadeReached(m, b, n) && NewlyRevealed(m, b, z)
    requires NewlyRevealed(a, m, c) && At(a, c).content == Empty(0) && Adjacent(c, n)
    ensures ReachedFrom(a, b, c, z)
  {
    assert ReachedFrom(m, b, n, z);
    var p :| Chain(m, b, p) && p[0] == n && p[|p| - 1] == z;
    ChainExtends(a, m, b, c, p, z);
  }

  /** Putting `c` in front of a path of the nested reveal that ends at `z`
      gives a path from `c` to `z`. */
  lemma ChainExtends(a: Grid, m: Grid, b: Grid, c: Coordinate, p: seq<Coordinate>, z: Coordinate)
    requires OnlyReveals(a, m) && OnlyReveals(m, b) && Chain(m, b, p) && p[|p| - 1] == z
    requires NewlyRevealed(a, m, c) && At(a, c).content == Empty(0) && Adjacent(c, p[0])
    ensures ReachedFrom(a, b, c, z)
  {
    ChainPrepend(a, m, b, c, p);
    PrependEnds(c, p);
    ChainReaches(a, b, [c] + p, c, z);
  }

  /** A reveal that uncovers only `c` reaches it trivially. */
  lemma ReachedAlone(a: Grid, b: Grid, c: Coordinate)
    requires NewlyRevealed(a, b, c)
    requires forall z :: NewlyRevealed(a, b, z) ==> z == c
    ensures CascadeReached(a, b, c)
  {
    assert Chain(a, b, [c]);
  }

  /** A reveal that uncovers no mine keeps the board free of revealed mines. */
  lemma NoMineRevealedKept(a: Grid, b: Grid, c: Coordinate)
    requires OnlyReveals(a, b) && CascadeSafe(a, b, c) && !MineRevealed(a)
    requires InGrid(a, c) ==> At(a, c).content != Mine
    ensures !MineRevealed(b)
  {
    forall z | InGrid(b, z)
      ensures At(b, z) != CellStatus(Mine, Revealed)
    {
      assert InGrid(a, z);
      if At(b, z).status == Revealed && At(a, z).status == Hidden {
        assert NewlyRevealed(a, b, z);
      }
    }
  }

  /** Revealing more never reveals less: reveals compose. */
  lemma OnlyRevealsTrans(a: Grid, m: Grid, b: Grid)
    requires OnlyReveals(a, m) && OnlyReveals(m, b)
    ensures OnlyReveals(a, b)
  {
    forall c | InGrid(a, c)
      ensures At(b, c).content == At(a, c).content
      ensures At(b, c).status == At(a, c).status || (At(a, c).status == Hidden && At(b, c).status == Revealed)
    {
      assert InGrid(m, c);
    }
  }

  /* ---------- The outcome of one reveal ---------- */

  /** What revealing `c` does to grid `a` in state `sa`, giving grid `b` in
      state `sb`. Only Hidden cells become Revealed and no content changes.
      When the game is over, `c` is off the grid or not Hidden, nothing
      changes. Otherwise `c` is Revealed and the game is lost if `c` holds a
      mine, won if no Hidden cell is left, and still on otherwise. No other
      mine is uncovered, every newly revealed zero-count cell has its whole
      block uncovered or flagged, and every newly revealed cell is reached from
      `c` along a path of newly revealed zero-count cells. */
  ghost predicate RevealOutcome(a: Grid, sa: GameState, b: Grid, sb: GameState, c: Coordinate, width: nat, height: nat) {
    && OnlyReveals(a, b)
    && (!sa.IsPlaying() || !InGrid(a, c) || At(a, c).status != Hidden ==> b == a && sb == sa)
    && (sa.IsPlaying() && InGrid(a, c) && At(a, c).status == Hidden ==>
          && At(b, c).status == Revealed
          && sb == if At(a, c).content == Mine then Lost else if NoHidden(b) then Won else Playing)
    && CascadeSafe(a, b, c)
    && CascadeClosed(a, b, width, height)
    && CascadeReached(a, b, c)
  }

  /* ---------- The outcome determines the result ---------- */

  /** Every cell of a cascade path from `a` to `b1` is newly revealed in `b2`
      too, when the path starts at a cell newly revealed in `b2` and `b2`
      leaves no uncovered zero-count cell with a Hidden neighbour. */
  lemma {:induction false} ChainInside(a: Grid, b1: Grid, b2: Grid, p: seq<Coordinate>, k: nat, width: nat, height: nat)
    requires Shaped(a, width, height) && OnlyReveals(a, b2)
    requires Chain(a, b1, p) && k < |p|
    requires NewlyRevealed(a, b2, p[0]) && CascadeClosed(a, b2, width, height)
    ensures NewlyRevealed(a, b2, p[k])
  {
    if k > 0 {
      ChainInside(a, b1, b2, p, k - 1, width, height);
      ChainStep(a, b1, p, k - 1);
      ChainLink(a, b1, b2, p[k - 1], p[k], width, height);
    }
  }

  /** The link from the `i`-th cell of a path to the next. */
  lemma ChainStep(a: Grid, b: Grid, p: seq<Coordinate>, i: nat)
    requires Chain(a, b, p) && i + 1 < |p|
    ensures Link(a, p[i], p[i + 1]) && NewlyRevealed(a, b, p[i + 1])
  {
  }

  /** One link of the path: the next cell is in the block of a zero-count
      cell that `b2` uncovered, so `b2` uncovered it too. */
  lemma ChainLink(a: Grid, b1: Grid, b2: Grid, z: Coordinate, n: Coordinate, width: nat, height: nat)
    requires Shaped(a, width, height) && OnlyReveals(a, b2)
    requires NewlyRevealed(a, b2, z) && Link(a, z, n)
    requires NewlyRevealed(a, b1, n) && CascadeClosed(a, b2, width, height)
    ensures NewlyRevealed(a, b2, n)
  {
    assert n in Neighbours(width, height, z);
    assert Settled(b2, width, height, z);
  }

  /** A cell the cascade from `c` reaches in `b1` is uncovered in every closed
      cascade `b2` from `c` as well. */
  lemma ReachedInOther(a: Grid, b1: Grid, b2: Grid, c: Coordinate, z: Coordinate, width: nat, height: nat)
    requires Shaped(a, width, height) && OnlyReveals(a, b2)
    requires NewlyRevealed(a, b2, c) && CascadeClosed(a, b2, width, height)
    requires CascadeReached(a, b1, c) && NewlyRevealed(a, b1, z)
    ensures NewlyRevealed(a, b2, z)
  {
    var p :| Chain(a, b1, p) && p[0] == c && p[|p| - 1] == z;
    ChainInside(a, b1, b2, p, |p| - 1, width, height);
  }

  /** Two grids obtained from `a` by revealing the same cells are equal. */
  lemma SameRevealsSameGrid(a: Grid, b1: Grid, b2: Grid)
    requires OnlyReveals(a, b1) && OnlyReveals(a, b2)
    requires forall z :: NewlyRevealed(a, b1, z) <==> NewlyRevealed(a, b2, z)
    ensures b1 == b2
  {
    forall y | 0 <= y < |a|
      ensures b1[y] == b2[y]
    {
      forall x | 0 <= x < |a[y]|
        ensures b1[y][x] == b2[y][x]
      {
        var z := Coordinate(x, y);
        assert InGrid(a, z) && InGrid(b1, z) && InGrid(b2, z);
        assert NewlyRevealed(a, b1, z) <==> NewlyRevealed(a, b2, z);
      }
    }
  }

  /** The outcome of a reveal is unique: from a board of the stated size, at
      most one grid and one game state satisfy it. So the cascade uncovers
      exactly the cells it reaches, and no others. */
  lemma RevealDetermined(a: Grid, sa: GameState, b1: Grid, sb1: GameState, b2: Grid, sb2: GameState,
                         c: Coordinate, width: nat, height: nat)
    requires Shaped(a, width, height)
    requires RevealOutcome(a, sa, b1, sb1, c, width, height)
    requires RevealOutcome(a, sa, b2, sb2, c, width, height)
    ensures b1 == b2 && sb1 == sb2
  {
    if sa.IsPlaying() && InGrid(a, c) && At(a, c).status == Hidden {
      forall z
        ensures NewlyRevealed(a, b1, z) <==> NewlyRevealed(a, b2, z)
      {
        if NewlyRevealed(a, b1, z) {
          ReachedInOther(a, b1, b2, c, z, width, height);
        }
        if NewlyRevealed(a, b2, z) {
          ReachedInOther(a, b2, b1, c, z, width, height);
        }
      }
      SameRevealsSameGrid(a, b1, b2);
    }
  }

  /** A reveal that returns at once. */
  lemma RevealNoop(a: Grid, sa: GameState, c: Coordinate, width: nat, height: nat)
    requires !sa.IsPlaying() || !InGrid(a, c) || At(a, c).status != Hidden
    ensures RevealOutcome(a, sa, a, sa, c, width, height)
  {
  }

  /** After a reveal on a running game, the target is no longer Hidden. */
  lemma OutcomeUncovers(a: Grid, sa: GameState, b: Grid, sb: GameState, c: Coordinate, width: nat, height: nat)
    requires RevealOutcome(a, sa, b, sb, c, width, height)
    requires sa != Lost && (sa == Won ==> NoHidden(a)) && InGrid(a, c)
    ensures InGrid(b, c) && At(b, c).status != Hidden
  {
  }

  /** The state of the cascade around the zero-count cell `c` after its first
      `i` neighbours `nbrs` have been revealed, from grid `a` to grid `m` with
      game state `sm`. */
  ghost predicate Cascading(a: Grid, m: Grid, sm: GameState, c: Coordinate, nbrs: seq<Coordinate>, i: nat, width: nat, height: nat) {
    && Shaped(a, width, height)
    && nbrs == Neighbours(width, height, c) && i <= |nbrs|
    && InGrid(a, c) && At(a, c) == CellStatus(Empty(0), Hidden)
    && (forall n :: n in nbrs ==> !IsMineAt(a, n))
    && OnlyReveals(a, m) && At(m, c).status == Revealed
    && sm != Lost
    && (forall j :: 0 <= j < i ==> InGrid(m, nbrs[j]) && At(m, nbrs[j]).status != Hidden)
    && CascadeSafe(a, m, c)
    && ClosedExcept(a, m, width, height, c)
    && CascadeReached(a, m, c)
  }

  /** Uncovering a hidden zero-count cell starts the cascade: none of its
      neighbours holds a mine. */
  lemma CascadeStart(a: Grid, sa: GameState, c: Coordinate, width: nat, height: nat)
    requires Consistent(a, sa, width, height) && sa == Playing
    requires InGrid(a, c) && At(a, c) == CellStatus(Empty(0), Hidden)
    ensures Consistent(Put(a, c, CellStatus(Empty(0), Revealed)), Playing, width, height)
    ensures Cascading(a, Put(a, c, CellStatus(Empty(0), Revealed)), Playing, c, Neighbours(width, height, c), 0, width, height)
  {
    var m := Put(a, c, CellStatus(Empty(0), Revealed));
    var nbrs := Neighbours(width, height, c);
    CountsKept(a, m, width, height);
    forall n | n in nbrs
      ensures !IsMineAt(a, n)
    {
      ZeroMinesIn(a, nbrs, n);
    }
    assert forall z :: NewlyRevealed(a, m, z) ==> z == c;
    ReachedAlone(a, m, c);
    NoMineRevealedKept(a, m, c);
  }

  /** While the cascade is running, its centre is a Hidden cell already uncovered. */
  lemma CascadeProgress(a: Grid, m: Grid, sm: GameState, c: Coordinate, nbrs: seq<Coordinate>, i: nat, width: nat, height: nat)
    requires Cascading(a, m, sm, c, nbrs, i, width, height)
    ensures HiddenSet(m, width, height) < HiddenSet(a, width, height)
  {
    HiddenShrinks(a, m, width, height, c);
  }

  /** The neighbours done so far stay uncovered, and the one just revealed joins them. */
  lemma PrefixUncovered(m: Grid, b: Grid, nbrs: seq<Coordinate>, i: nat)
    requires OnlyReveals(m, b) && i < |nbrs|
    requires forall j :: 0 <= j < i ==> InGrid(m, nbrs[j]) && At(m, nbrs[j]).status != Hidden
    requires InGrid(b, nbrs[i]) && At(b, nbrs[i]).status != Hidden
    ensures forall j :: 0 <= j < i + 1 ==> InGrid(b, nbrs[j]) && At(b, nbrs[j]).status != Hidden
  {
    forall j | 0 <= j < i
      ensures InGrid(b, nbrs[j]) && At(b, nbrs[j]).status != Hidden
    {
      assert InGrid(m, nbrs[j]);
    }
  }

  /** Chaining the nested reveal of neighbour `nbrs[i]` into the cascade. */
  lemma CascadeStep(a: Grid, m: Grid, sm: GameState, b: Grid, sb: GameState, c: Coordinate, nbrs: seq<Coordinate>, i: nat, width: nat, height: nat)
    requires Cascading(a, m, sm, c, nbrs, i, width, height) && i < |nbrs|
    requires Consistent(m, sm, width, height) && Consistent(b, sb, width, height)
    requires RevealOutcome(m, sm, b, sb, nbrs[i], width, height)
    ensures Cascading(a, b, sb, c, nbrs, i + 1, width, height)
  {
    var n := nbrs[i];
    assert InGrid(a, n) ==> At(a, n).content != Mine;
    assert InGrid(m, n) ==> At(m, n).content != Mine;
    OnlyRevealsTrans(a, m, b);
    NoMineRevealedKept(m, b, n);
    OutcomeUncovers(m, sm, b, sb, n, width, height);
    PrefixUncovered(m, b, nbrs, i);
    SafeStep(a, m, b, c, n);
    ClosedStep(a, m, b, width, height, c);
    ReachedStep(a, m, b, c, n);
  }

  /** A reveal of `c` after its cell has been uncovered, cascade included,
      from grid `a` to grid `m` in state `sm`, before the win test. */
  ghost predicate Uncovered(a: Grid, m: Grid, sm: GameState, c: Coordinate, width: nat, height: nat) {
    && OnlyReveals(a, m)
    && NewlyRevealed(a, m, c)
    && sm != Lost
    && Consistent(m, sm, width, height)
    && CascadeSafe(a, m, c)
    && CascadeClosed(a, m, width, height)
    && CascadeReached(a, m, c)
  }

  /** Once every neighbour has been revealed, the centre's block is settled. */
  lemma CascadeEnd(a: Grid, m: Grid, sm: GameState, c: Coordinate, nbrs: seq<Coordinate>, width: nat, height: nat)
    requires Cascading(a, m, sm, c, nbrs, |nbrs|, width, height)
    requires Consistent(m, sm, width, height)
    ensures Uncovered(a, m, sm, c, width, height)
  {
    forall n | n in nbrs
      ensures InGrid(m, n) && At(m, n).status != Hidden
    {
      var j :| 0 <= j < |nbrs| && nbrs[j] == n;
    }
    assert Settled(m, width, height, c);
  }

  /** Uncovering a hidden cell with a positive count reveals that cell alone. */
  lemma UncoverCount(a: Grid, sa: GameState, c: Coordinate, width: nat, height: nat)
    requires Consistent(a, sa, width, height) && sa == Playing
    requires InGrid(a, c) && At(a, c).status == Hidden && At(a, c).content.Empty? && At(a, c).content.n != 0
    ensures Uncovered(a, Put(a, c, CellStatus(At(a, c).content, Revealed)), Playing, c, width, height)
  {
    var m := Put(a, c, CellStatus(At(a, c).content, Revealed));
    CountsKept(a, m, width, height);
    assert forall z :: NewlyRevealed(a, m, z) ==> z == c;
    ReachedAlone(a, m, c);
    NoMineRevealedKept(a, m, c);
  }

  /** Uncovering a hidden mine loses the game. */
  lemma MineFinish(a: Grid, sa: GameState, c: Coordinate, width: nat, height: nat)
    requires Consistent(a, sa, width, height) && sa == Playing
    requires InGrid(a, c) && At(a, c) == CellStatus(Mine, Hidden)
    ensures Consistent(Put(a, c, CellStatus(Mine, Revealed)), Lost, width, height)
    ensures RevealOutcome(a, sa, Put(a, c, CellStatus(Mine, Revealed)), Lost, c, width, height)
  {
    var b := Put(a, c, CellStatus(Mine, Revealed));
    CountsKept(a, b, width, height);
    assert forall z :: NewlyRevealed(a, b, z) ==> z == c;
    ReachedAlone(a, b, c);
    assert At(b, c) == CellStatus(Mine, Revealed);
  }

  /** The win test after a safe reveal: the game is won once no Hidden cell is left. */
  lemma SafeFinish(a: Grid, sa: GameState, m: Grid, sm: GameState, sb: GameState, c: Coordinate, width: nat, height: nat)
    requires sa == Playing && InGrid(a, c) && At(a, c).status == Hidden && At(a, c).content != Mine
    requires Uncovered(a, m, sm, c, width, height)
    requires sb == if NoHidden(m) then Won else sm
    ensures Consistent(m, sb, width, height)
    ensures RevealOutcome(a, sa, m, sb, c, width, height)
  {
  }
}
