/** The board as a value: a grid of cells indexed `grid[y][x]`, the 3x3
    neighbourhood of a coordinate, mine counting, and the relations between a
    grid before and after a reveal that the board engine's contracts use. */
module Field {
  import opened Cells

  type Grid = seq<seq<CellStatus>>

  /** `height` rows of `width` cells each. */
  ghost predicate Shaped(f: Grid, width: nat, height: nat) {
    |f| == height && forall y :: 0 <= y < height ==> |f[y]| == width
  }

  predicate InGrid(f: Grid, c: Coordinate) {
    c.y < |f| && c.x < |f[c.y]|
  }

  function At(f: Grid, c: Coordinate): CellStatus
    requires InGrid(f, c)
  {
    f[c.y][c.x]
  }

  /** Looks up a cell; None when the coordinate is off the grid. */
  function GetCell(f: Grid, c: Coordinate): (r: Option<CellStatus>)
    ensures r.Some? <==> InGrid(f, c)
    ensures r.Some? ==> r.value == At(f, c)
  {
    if c.y < |f| && c.x < |f[c.y]| then Some(f[c.y][c.x]) else None
  }

  /** On a shaped grid the lookup succeeds exactly inside width x height,
      and then yields the cell stored in row `y`, column `x`. */
  lemma GetCellBounds(f: Grid, width: nat, height: nat, c: Coordinate)
    requires Shaped(f, width, height)
    ensures GetCell(f, c).Some? <==> c.x < width && c.y < height
    ensures c.x < width && c.y < height ==> GetCell(f, c).value == f[c.y][c.x]
  {
  }

  /** Writes one cell, what the source does through a mutable cell reference. */
  function Put(f: Grid, c: Coordinate, v: CellStatus): (r: Grid)
    requires InGrid(f, c)
    ensures |r| == |f| && forall y :: 0 <= y < |f| ==> |r[y]| == |f[y]|
    ensures forall d :: InGrid(f, d) ==> At(r, d) == if d == c then v else At(f, d)
  {
    f[c.y := f[c.y][c.x := v]]
  }

  /** Writing back the cell already there changes nothing. */
  lemma PutSame(f: Grid, c: Coordinate)
    requires InGrid(f, c)
    ensures Put(f, c, At(f, c)) == f
  {
    assert f[c.y][c.x := f[c.y][c.x]] == f[c.y];
  }

  /* ---------- The 3x3 neighbourhood ---------- */

  /** `b` lies in the 3x3 block centred on `a`; `a` is in its own block. */
  predicate Adjacent(a: Coordinate, b: Coordinate) {
    -1 <= a.x - b.x <= 1 && -1 <= a.y - b.y <= 1
  }

  /** Row-major order on positions: by `x` first, then by `y`. */
  predicate LexBefore(p: (int, int), q: (int, int)) {
    p.0 < q.0 || (p.0 == q.0 && p.1 < q.1)
  }

  function Key(c: Coordinate): (int, int) {
    (c.x, c.y)
  }

  predicate LexSorted(ps: seq<(int, int)>) {
    forall i, j :: 0 <= i < j < |ps| ==> LexBefore(ps[i], ps[j])
  }

  predicate CoordSorted(cs: seq<Coordinate>) {
    forall i, j :: 0 <= i < j < |cs| ==> LexBefore(Key(cs[i]), Key(cs[j]))
  }

  /** The positions `(c.x + dx, c.y + dy)` for dy = -1, 0, 1; they may lie off the grid. */
  function Column(c: Coordinate, dx: int): seq<(int, int)> {
    [(c.x + dx, c.y - 1), (c.x + dx, c.y), (c.x + dx, c.y + 1)]
  }

  /** The nine positions of the 3x3 block around `c`, dx outer and dy inner. */
  function Block(c: Coordinate): seq<(int, int)> {
    Column(c, -1) + Column(c, 0) + Column(c, 1)
  }

  lemma BlockShape(c: Coordinate)
    ensures |Block(c)| == 9 && LexSorted(Block(c))
    ensures forall p :: p in Block(c) <==> -1 <= p.0 - c.x <= 1 && -1 <= p.1 - c.y <= 1
  {
    var b := Block(c);
    forall i | 0 <= i < 9
      ensures b[i] == (c.x + i / 3 - 1, c.y + i % 3 - 1)
    {
      if i < 3 { assert b[i] == Column(c, -1)[i]; }
      else if i < 6 { assert b[i] == Column(c, 0)[i - 3]; }
      else { assert b[i] == Column(c, 1)[i - 6]; }
    }
    forall p: (int, int) | -1 <= p.0 - c.x <= 1 && -1 <= p.1 - c.y <= 1
      ensures p in b
    {
      var i := 3 * (p.0 - c.x + 1) + (p.1 - c.y + 1);
      assert b[i] == p;
    }
  }

  /** The filter-and-convert step: keeps the positions inside width x height. */
  function KeepInBounds(width: nat, height: nat, ps: seq<(int, int)>): (r: seq<Coordinate>)
    ensures |r| <= |ps|
    ensures forall n :: n in r <==> Key(n) in ps && n.x < width && n.y < height
    ensures LexSorted(ps) ==> CoordSorted(r)
  {
    if ps == [] then []
    else
      var rest := KeepInBounds(width, height, ps[1..]);
      assert forall n :: Key(n) in ps <==> Key(n) == ps[0] || Key(n) in ps[1..];
      if 0 <= ps[0].0 < width && 0 <= ps[0].1 < height then
        assert LexSorted(ps) ==> forall n :: n in rest ==> LexBefore(ps[0], Key(n));
        [Coordinate(ps[0].0, ps[0].1)] + rest
      else
        rest
  }

  /** The neighbours of `c`: the in-bounds positions of its 3x3 block, `c` itself included. */
  function Neighbours(width: nat, height: nat, c: Coordinate): (r: seq<Coordinate>)
    ensures forall n :: n in r <==> n.x < width && n.y < height && Adjacent(c, n)
    ensures |r| <= 9
    ensures CoordSorted(r)
  {
    BlockShape(c);
    KeepInBounds(width, height, Block(c))
  }

  /** Sorted coordinates are distinct. */
  lemma SortedDistinct(cs: seq<Coordinate>, i: int, j: int)
    requires CoordSorted(cs) && 0 <= i < |cs| && 0 <= j < |cs| && i != j
    ensures cs[i] != cs[j]
  {
    if i < j { assert LexBefore(Key(cs[i]), Key(cs[j])); }
    else { assert LexBefore(Key(cs[j]), Key(cs[i])); }
  }

  /* ---------- Counting mines ---------- */

  predicate IsMineAt(f: Grid, c: Coordinate) {
    GetCell(f, c).Some? && GetCell(f, c).value.content == Mine
  }

  /** How many entries of `s` hold a mine, taken in order from the front. */
  function MinesIn(f: Grid, s: seq<Coordinate>): (k: nat)
    ensures k <= |s|
  {
    if s == [] then 0
    else MinesIn(f, s[..|s| - 1]) + (if IsMineAt(f, s[|s| - 1]) then 1 else 0)
  }

  /** The number of mines among the neighbours of `c`. */
  function MinesAround(f: Grid, width: nat, height: nat, c: Coordinate): nat {
    MinesIn(f, Neighbours(width, height, c))
  }

  /** Every cell of the grid: column `x` below `width`, row `y` below `height`. */
  ghost function AllCells(width: nat, height: nat): set<Coordinate> {
    set x: nat, y: nat | x < width && y < height :: Coordinate(x, y)
  }

  lemma InCells(width: nat, height: nat, c: Coordinate)
    ensures c in AllCells(width, height) <==> c.x < width && c.y < height
  {
    if c.x < width && c.y < height {
      assert c == Coordinate(c.x, c.y);
    }
  }

  /** The mine cells of the 3x3 block around `c`, as a set. */
  ghost function BlockMines(f: Grid, width: nat, height: nat, c: Coordinate): set<Coordinate> {
    set n | n in AllCells(width, height) && Adjacent(c, n) && IsMineAt(f, n)
  }

  /** The mine positions listed in `s`. */
  ghost function ListedMines(f: Grid, s: seq<Coordinate>): set<Coordinate> {
    set n | n in s && IsMineAt(f, n)
  }

  lemma ListedMinesLast(f: Grid, s: seq<Coordinate>)
    requires s != []
    ensures ListedMines(f, s) ==
            ListedMines(f, s[..|s| - 1]) + (if IsMineAt(f, s[|s| - 1]) then {s[|s| - 1]} else {})
  {
    assert s == s[..|s| - 1] + [s[|s| - 1]];
  }

  /** Counting along a list without repeats gives the size of its set of mines. */
  lemma {:induction false} MinesInDistinct(f: Grid, s: seq<Coordinate>)
    requires forall i, j :: 0 <= i < j < |s| ==> s[i] != s[j]
    ensures MinesIn(f, s) == |ListedMines(f, s)|
  {
    if s != [] {
      var init, last := s[..|s| - 1], s[|s| - 1];
      MinesInDistinct(f, init);
      ListedMinesLast(f, s);
      assert last !in init;
      assert last !in ListedMines(f, init);
    }
  }

  /** The count stored by the board is the number of mine cells in the block. */
  lemma MinesAroundIsBlockMines(f: Grid, width: nat, height: nat, c: Coordinate)
    ensures MinesAround(f, width, height, c) == |BlockMines(f, width, height, c)|
  {
    var s := Neighbours(width, height, c);
    forall i, j | 0 <= i < j < |s| ensures s[i] != s[j] { SortedDistinct(s, i, j); }
    MinesInDistinct(f, s);
    forall n ensures n in BlockMines(f, width, height, c) <==> n in ListedMines(f, s) {
      InCells(width, height, n);
    }
    assert BlockMines(f, width, height, c) == ListedMines(f, s);
  }

  /** A list that holds a non-mine position counts at most its length less one. */
  lemma {:induction false} MinesInWithout(f: Grid, s: seq<Coordinate>, c: Coordinate)
    requires c in s && !IsMineAt(f, c)
    ensures MinesIn(f, s) <= |s| - 1
  {
    var init := s[..|s| - 1];
    if s[|s| - 1] != c {
      assert c in init;
      MinesInWithout(f, init, c);
    }
  }

  /** A non-mine cell counts at most 8 mines: its own position is in its block. */
  lemma MinesAroundAtMostEight(f: Grid, width: nat, height: nat, c: Coordinate)
    requires Shaped(f, width, height) && InGrid(f, c) && !IsMineAt(f, c)
    ensures MinesAround(f, width, height, c) <= 8
  {
    MinesInWithout(f, Neighbours(width, height, c), c);
  }

  /** On a board whose counts are right, every stored count is at most 8. */
  lemma StoredCountAtMostEight(f: Grid, width: nat, height: nat, c: Coordinate)
    requires Shaped(f, width, height) && CountsConsistent(f, width, height)
    requires InGrid(f, c) && At(f, c).content.Empty?
    ensures At(f, c).content.n <= 8
  {
    MinesAroundAtMostEight(f, width, height, c);
  }

  /** A zero count means no listed position holds a mine. */
  lemma {:induction false} ZeroMinesIn(f: Grid, s: seq<Coordinate>, n: Coordinate)
    requires MinesIn(f, s) == 0 && n in s
    ensures !IsMineAt(f, n)
  {
    var init := s[..|s| - 1];
    if s[|s| - 1] != n {
      assert n in init;
      ZeroMinesIn(f, init, n);
    }
  }

  /** Two grids with mines at the same positions. */
  ghost predicate SameMines(f: Grid, g: Grid) {
    forall n :: IsMineAt(f, n) <==> IsMineAt(g, n)
  }

  /** The count depends on where the mines are and nothing else. */
  lemma {:induction false} MinesInSameMines(f: Grid, g: Grid, s: seq<Coordinate>)
    requires SameMines(f, g)
    ensures MinesIn(f, s) == MinesIn(g, s)
  {
    if s != [] {
      MinesInSameMines(f, g, s[..|s| - 1]);
      assert IsMineAt(f, s[|s| - 1]) <==> IsMineAt(g, s[|s| - 1]);
    }
  }

  /** Rewriting the count of a non-mine cell keeps every count the same. */
  lemma CountStep(f: Grid, g: Grid, width: nat, height: nat, c: Coordinate)
    requires InGrid(f, c) && At(f, c).content.Empty?
    requires exists k: nat :: g == Put(f, c, CellStatus(Empty(k), At(f, c).status))
    ensures SameMines(f, g)
    ensures forall d :: MinesAround(g, width, height, d) == MinesAround(f, width, height, d)
  {
    forall n ensures IsMineAt(f, n) <==> IsMineAt(g, n) {
      if InGrid(f, n) { assert At(g, n).content.Mine? <==> At(f, n).content.Mine?; }
    }
    forall d ensures MinesAround(g, width, height, d) == MinesAround(f, width, height, d) {
      MinesInSameMines(g, f, Neighbours(width, height, d));
    }
  }

  /** Every non-mine cell stores the number of mines in its 3x3 block. */
  ghost predicate CountsConsistent(f: Grid, width: nat, height: nat) {
    forall c :: InGrid(f, c) && At(f, c).content.Empty? ==>
      At(f, c).content.n == MinesAround(f, width, height, c)
  }

  /* ---------- The counting pass ---------- */

  /** Column-major visiting order: position `c` comes before (x, y). */
  predicate Before(c: Coordinate, x: nat, y: nat) {
    c.x < x || (c.x == x && c.y < y)
  }

  /** The counting pass on `grid` after every position before (x, y) has been
      visited: only counts have changed, mine cells are untouched, and every
      visited non-mine cell stores its block's count. */
  ghost predicate CountedUpTo(grid: Grid, counted: Grid, width: nat, height: nat, x: nat, y: nat) {
    && Shaped(grid, width, height)
    && Shaped(counted, width, height)
    && SameMines(grid, counted)
    && (forall c :: InGrid(counted, c) ==> At(counted, c).status == At(grid, c).status)
    && (forall c :: IsMineAt(counted, c) ==> At(counted, c) == At(grid, c))
    && (forall c :: InGrid(counted, c) && Before(c, x, y) && At(counted, c).content.Empty? ==>
          At(counted, c).content.n == MinesAround(counted, width, height, c))
  }

  /** Visiting position (x, y): a non-mine cell gets its block's count, a mine is skipped. */
  lemma CountingNext(grid: Grid, counted: Grid, width: nat, height: nat, x: nat, y: nat)
    requires CountedUpTo(grid, counted, width, height, x, y) && x < width && y < height
    ensures InGrid(counted, Coordinate(x, y))
    ensures At(counted, Coordinate(x, y)).content.Empty? ==>
              CountedUpTo(grid,
                          Put(counted, Coordinate(x, y),
                              CellStatus(Empty(MinesAround(counted, width, height, Coordinate(x, y))),
                                         At(counted, Coordinate(x, y)).status)),
                          width, height, x, y + 1)
    ensures At(counted, Coordinate(x, y)).content == Mine ==> CountedUpTo(grid, counted, width, height, x, y + 1)
  {
    var c := Coordinate(x, y);
    if At(counted, c).content.Empty? {
      CountingPut(grid, counted, width, height, c);
    }
  }

  /** Storing the count of the non-mine cell `c` extends the visited part by `c`. */
  lemma CountingPut(grid: Grid, counted: Grid, width: nat, height: nat, c: Coordinate)
    requires CountedUpTo(grid, counted, width, height, c.x, c.y) && c.x < width && c.y < height
    requires At(counted, c).content.Empty?
    ensures CountedUpTo(grid,
                        Put(counted, c, CellStatus(Empty(MinesAround(counted, width, height, c)), At(counted, c).status)),
                        width, height, c.x, c.y + 1)
  {
    var k := MinesAround(counted, width, height, c);
    var g := Put(counted, c, CellStatus(Empty(k), At(counted, c).status));
    CountStep(counted, g, width, height, c);
    assert SameMines(grid, g);
    forall d | InGrid(g, d)
      ensures At(g, d).status == At(grid, d).status
      ensures IsMineAt(g, d) ==> At(g, d) == At(grid, d)
    {
      assert InGrid(counted, d);
    }
    forall d | InGrid(g, d) && Before(d, c.x, c.y + 1) && At(g, d).content.Empty?
      ensures At(g, d).content.n == MinesAround(g, width, height, d)
    {
      if d != c {
        assert At(g, d) == At(counted, d);
      }
    }
  }

  /** After the last row of column `x`, the pass moves to the top of column `x + 1`. */
  lemma CountingColumnDone(grid: Grid, counted: Grid, width: nat, height: nat, x: nat)
    requires CountedUpTo(grid, counted, width, height, x, height)
    ensures CountedUpTo(grid, counted, width, height, x + 1, 0)
  {
    forall c | InGrid(counted, c) && Before(c, x + 1, 0)
      ensures Before(c, x, height)
    {
    }
  }

  /** After the last column every count is right. */
  lemma CountingDone(grid: Grid, counted: Grid, width: nat, height: nat)
    requires CountedUpTo(grid, counted, width, height, width, 0)
    ensures CountsConsistent(counted, width, height)
  {
    forall c | InGrid(counted, c)
      ensures Before(c, width, 0)
    {
    }
  }

  /* ---------- Whole-grid predicates ---------- */

  ghost predicate AllHidden(f: Grid) {
    forall c :: InGrid(f, c) ==> At(f, c).status == Hidden
  }

  /** No cell is Hidden: the board is fully revealed and marked. */
  ghost predicate NoHidden(f: Grid) {
    forall c :: InGrid(f, c) ==> At(f, c).status != Hidden
  }

  /** Some mine has been revealed: the game is lost. */
  ghost predicate MineRevealed(f: Grid) {
    exists c :: InGrid(f, c) && At(f, c) == CellStatus(Mine, Revealed)
  }

  ghost function MineSet(f: Grid, width: nat, height: nat): set<Coordinate> {
    set c | c in AllCells(width, height) && IsMineAt(f, c)
  }

  /** Grids with mines at the same positions have the same mine set. */
  lemma MineSetSame(f: Grid, g: Grid, width: nat, height: nat)
    requires SameMines(f, g)
    ensures MineSet(f, width, height) == MineSet(g, width, height)
  {
  }

  ghost function HiddenSet(f: Grid, width: nat, height: nat): set<Coordinate> {
    set c | c in AllCells(width, height) && InGrid(f, c) && At(f, c).status == Hidden
  }

  /* ---------- Flags ---------- */

  /** The grid after toggling the flag on `c`. */
  function ToggleField(f: Grid, c: Coordinate): (r: Grid)
    requires InGrid(f, c)
    ensures |r| == |f| && forall y :: 0 <= y < |f| ==> |r[y]| == |f[y]|
    ensures forall d :: InGrid(f, d) ==> At(r, d).content == At(f, d).content
    ensures forall d :: InGrid(f, d) && d != c ==> At(r, d).status == At(f, d).status
    ensures At(r, c).status == Toggled(At(f, c).status)
  {
    Put(f, c, CellStatus(At(f, c).content, Toggled(At(f, c).status)))
  }

  /** Toggling the same cell twice restores the grid. */
  lemma ToggleFieldTwice(f: Grid, c: Coordinate)
    requires InGrid(f, c)
    ensures ToggleField(ToggleField(f, c), c) == f
  {
    var g := ToggleField(ToggleField(f, c), c);
    ToggledTwice(At(f, c).status);
    assert |g| == |f|;
    forall y | 0 <= y < |f| ensures g[y] == f[y] {
      forall x | 0 <= x < |f[y]| ensures g[y][x] == f[y][x] {
        assert At(g, Coordinate(x, y)) == At(f, Coordinate(x, y));
      }
    }
  }

  /* ---------- Placing mines ---------- */

  ghost function Elems(s: seq<Coordinate>): set<Coordinate> {
    set p | p in s
  }

  /** The rejection loop stops after `k` proposals: the first prefix that holds
      `mines` distinct coordinates, but never before the first proposal. */
  ghost predicate StopsAt(proposals: seq<Coordinate>, mines: nat, k: nat) {
    && 1 <= k <= |proposals|
    && |Elems(proposals[..k])| >= mines
    && (k == 1 || |Elems(proposals[..k - 1])| < mines)
  }

  /** Longer prefixes hold at least as many distinct coordinates. */
  lemma ElemsGrow(s: seq<Coordinate>, i: nat, j: nat)
    requires i <= j <= |s|
    ensures Elems(s[..i]) <= Elems(s[..j])
    ensures |Elems(s[..i])| <= |Elems(s[..j])|
  {
    assert forall p :: p in s[..i] ==> p in s[..j];
    var a, b := Elems(s[..i]), Elems(s[..j]);
    assert b == a + (b - a);
  }

  /** The stopping point, and so the set of placed mines, is determined by the proposals. */
  lemma StopsAtUnique(proposals: seq<Coordinate>, mines: nat, k: nat, k': nat)
    requires StopsAt(proposals, mines, k) && StopsAt(proposals, mines, k')
    ensures k == k'
  {
    if k < k' {
      ElemsGrow(proposals, k, k' - 1);
    } else if k' < k {
      ElemsGrow(proposals, k', k - 1);
    }
  }

  /** The state of the placement loop after `i` proposals: the mines sit
      exactly on the distinct proposals seen so far, and `placed` counts them. */
  ghost predicate Placing(f: Grid, width: nat, height: nat, proposals: seq<Coordinate>, i: nat, placed: nat) {
    && i <= |proposals|
    && (forall j :: 0 <= j < |proposals| ==> proposals[j].x < width && proposals[j].y < height)
    && Shaped(f, width, height)
    && OnlyMinesPlaced(f)
    && MineSet(f, width, height) == Elems(proposals[..i])
    && placed == |Elems(proposals[..i])|
  }

  lemma ElemsNext(s: seq<Coordinate>, i: nat)
    requires i < |s|
    ensures Elems(s[..i + 1]) == Elems(s[..i]) + {s[i]}
  {
    assert s[..i + 1] == s[..i] + [s[i]];
  }

  /** One pass of the placement loop on `proposals[i]`: a cell without a mine
      becomes a hidden mine and the count goes up; a mine cell is left alone. */
  lemma PlacingNext(f: Grid, width: nat, height: nat, proposals: seq<Coordinate>, i: nat, placed: nat)
    requires Placing(f, width, height, proposals, i, placed) && i < |proposals|
    ensures InGrid(f, proposals[i])
    ensures !IsMineAt(f, proposals[i]) ==>
              Placing(Put(f, proposals[i], CellStatus(Mine, Hidden)), width, height, proposals, i + 1, placed + 1)
    ensures IsMineAt(f, proposals[i]) ==> Placing(f, width, height, proposals, i + 1, placed)
  {
    var p := proposals[i];
    ElemsNext(proposals, i);
    if !IsMineAt(f, p) {
      PlaceStep(f, width, height, p);
    } else {
      InCells(width, height, p);
    }
  }

  /** At least one mine is always placed: the placement loop tests its exit
      condition only after its first pass. */
  function MinesPlaced(mines: nat): (r: nat)
    ensures r >= 1 && r >= mines
    ensures mines >= 1 ==> r == mines
  {
    if mines == 0 then 1 else mines
  }

  /** The placement loop leaves after `i` passes once `placed` has reached
      `mines`, having been below it after every earlier pass: it stops at `i`
      and has placed `MinesPlaced(mines)` mines. */
  lemma PlacingStops(proposals: seq<Coordinate>, mines: nat, i: nat, placed: nat)
    requires 1 <= i <= |proposals| && placed == |Elems(proposals[..i])|
    requires placed >= mines && (i == 1 || |Elems(proposals[..i - 1])| < mines)
    ensures StopsAt(proposals, mines, i)
    ensures placed == MinesPlaced(mines)
  {
    ElemsNext(proposals, i - 1);
    if i == 1 {
      assert proposals[..0] == [];
      assert Elems(proposals[..0]) == {};
    }
  }

  /** While fewer than `mines` distinct proposals have been seen, one is left to draw. */
  lemma ProposalsLeft(proposals: seq<Coordinate>, mines: nat, i: nat)
    requires i <= |proposals| && |Elems(proposals)| >= 1 && |Elems(proposals)| >= mines
    requires i > 0 ==> |Elems(proposals[..i])| < mines
    ensures i < |proposals|
  {
    assert proposals[..|proposals|] == proposals;
  }

  lemma NoMinesYet(f: Grid, width: nat, height: nat)
    requires forall c :: InGrid(f, c) ==> At(f, c) == NewCell()
    ensures MineSet(f, width, height) == {} && OnlyMinesPlaced(f)
  {
    forall n | n in MineSet(f, width, height) ensures false { InCells(width, height, n); }
  }

  /** Every cell is a hidden mine or an untouched new cell. */
  ghost predicate OnlyMinesPlaced(f: Grid) {
    forall c :: InGrid(f, c) ==> At(f, c) == if IsMineAt(f, c) then CellStatus(Mine, Hidden) else NewCell()
  }

  /** One accepted proposal of the placement loop. */
  lemma PlaceStep(f: Grid, width: nat, height: nat, p: Coordinate)
    requires Shaped(f, width, height) && OnlyMinesPlaced(f) && InGrid(f, p) && !IsMineAt(f, p)
    ensures Shaped(Put(f, p, CellStatus(Mine, Hidden)), width, height)
    ensures OnlyMinesPlaced(Put(f, p, CellStatus(Mine, Hidden)))
    ensures MineSet(Put(f, p, CellStatus(Mine, Hidden)), width, height) == MineSet(f, width, height) + {p}
    ensures p !in MineSet(f, width, height)
  {
    MineSetAfterPlace(f, width, height, p);
  }

  /** Turning the non-mine cell `p` into a mine adds exactly `p` to the mine set. */
  lemma MineSetAfterPlace(f: Grid, width: nat, height: nat, p: Coordinate)
    requires Shaped(f, width, height) && InGrid(f, p) && !IsMineAt(f, p)
    ensures MineSet(Put(f, p, CellStatus(Mine, Hidden)), width, height) == MineSet(f, width, height) + {p}
    ensures p !in MineSet(f, width, height)
  {
    var g := Put(f, p, CellStatus(Mine, Hidden));
    forall n ensures n in MineSet(g, width, height) <==> n in MineSet(f, width, height) + {p} {
      InCells(width, height, n);
    }
  }

  /** Row `y` of a board `width` cells wide. */
  ghost function Row(width: nat, y: nat): set<Coordinate> {
    set x: nat | x < width :: Coordinate(x, y)
  }

  lemma InRow(width: nat, y: nat, c: Coordinate)
    ensures c in Row(width, y) <==> c.x < width && c.y == y
  {
    if c.x < width && c.y == y {
      assert c == Coordinate(c.x, y);
    }
  }

  lemma {:induction false} RowCard(width: nat, y: nat)
    ensures |Row(width, y)| == width
  {
    if width > 0 {
      RowCard(width - 1, y);
      assert Row(width, y) == Row(width - 1, y) + {Coordinate(width - 1, y)};
    }
  }

  /** Adding row `y` to the rows above it. */
  lemma AllCellsNextRow(width: nat, y: nat)
    ensures AllCells(width, y + 1) == AllCells(width, y) + Row(width, y)
    ensures AllCells(width, y) !! Row(width, y)
  {
    forall c ensures c in AllCells(width, y + 1) <==> c in AllCells(width, y) + Row(width, y) {
      InCells(width, y + 1, c);
      InCells(width, y, c);
      InRow(width, y, c);
    }
    forall c | c in Row(width, y) ensures c !in AllCells(width, y) {
      InCells(width, y, c);
      InRow(width, y, c);
    }
  }

  /** A width x height board has width * height cells. */
  lemma {:induction false} AllCellsCard(width: nat, height: nat)
    ensures |AllCells(width, height)| == width * height
  {
    if height > 0 {
      var y := height - 1;
      AllCellsCard(width, y);
      RowCard(width, y);
      AllCellsNextRow(width, y);
      assert width * height == width * y + width;
    }
  }

  /** Enough distinct in-bounds proposals exist only when the mines fit on the board,
      so the placement loop's precondition excludes the case where it would spin forever. */
  lemma PlacementFits(width: nat, height: nat, mines: nat, proposals: seq<Coordinate>)
    requires forall i :: 0 <= i < |proposals| ==> proposals[i].x < width && proposals[i].y < height
    requires |Elems(proposals)| >= mines
    ensures mines <= width * height
  {
    var e := Elems(proposals);
    var all := AllCells(width, height);
    forall p | p in e ensures p in all { InCells(width, height, p); }
    assert all == e + (all - e);
    AllCellsCard(width, height);
  }

  /** Every cell once, row by row: the proposals of a generator that tries each cell in turn. */
  ghost function Enumerate(width: nat, height: nat): seq<Coordinate> {
    if height == 0 then []
    else Enumerate(width, height - 1) + seq(width, x requires 0 <= x => Coordinate(x, height - 1))
  }

  lemma {:induction false} EnumerateCovers(width: nat, height: nat)
    ensures forall p :: p in Enumerate(width, height) ==> p.x < width && p.y < height
    ensures Elems(Enumerate(width, height)) == AllCells(width, height)
  {
    if height > 0 {
      var y := height - 1;
      EnumerateCovers(width, y);
      var prev, row := Enumerate(width, y), seq(width, x requires 0 <= x => Coordinate(x, y));
      assert Enumerate(width, height) == prev + row;
      AllCellsNextRow(width, y);
      forall c ensures c in prev + row <==> c in AllCells(width, y) + Row(width, y) {
        InRow(width, y, c);
        InCells(width, y, c);
        if c in Row(width, y) {
          assert row[c.x] == c;
        }
      }
    }
  }

  /** Conversely, enough distinct in-bounds proposals exist whenever the mines
      to be placed fit on the board. */
  lemma ProposalsExist(width: nat, height: nat, mines: nat)
    requires MinesPlaced(mines) <= width * height
    ensures exists proposals: seq<Coordinate> ::
              && (forall i :: 0 <= i < |proposals| ==> proposals[i].x < width && proposals[i].y < height)
              && |Elems(proposals)| >= MinesPlaced(mines)
  {
    EnumerateCovers(width, height);
    AllCellsCard(width, height);
    var ps := Enumerate(width, height);
    assert forall i :: 0 <= i < |ps| ==> ps[i] in ps;
    assert |Elems(ps)| >= MinesPlaced(mines);
  }
}
