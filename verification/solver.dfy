/** The backtracking solver: the placement check, the finished-board check,
    the row-major search for an empty cell, and the depth-first search.

    Every operation takes the grid as a value. Solve returns a success flag
    together with the resulting grid: a solution keeping the given values
    on success, the given grid itself on failure.
 */
module TangoSolver {
  import opened TangoRules
  import opened TangoFacts

  datatype Option<T> = None | Some(value: T)

  /** A cell position, as the search returns it. */
  datatype Pos = Pos(r: int, c: int)

  /** Which constraint matrix an edge lives in: H for the matrix between
      vertical neighbours, V for the one between horizontal neighbours. */
  datatype Axis = H | V

  /** One entry of the neighbour table: the neighbour's position and where
      the constraint on the shared edge is stored. */
  datatype Neighbour = Neighbour(nr: int, nc: int, dir: Axis, cr: int, cc: int)

  /** The stored constraint position lies inside the matrix it names. */
  predicate LookupInRange(n: Neighbour) {
    if n.dir == H then 0 <= n.cr < N - 1 && 0 <= n.cc < N
    else 0 <= n.cr < N && 0 <= n.cc < N - 1
  }

  function Lookup(h: HMatrix, v: VMatrix, n: Neighbour): Relation
    requires LookupInRange(n)
  {
    if n.dir == H then h[n.cr][n.cc] else v[n.cr][n.cc]
  }

  /** The neighbour table of (r, c): up, down, left, right. Every entry that
      lies on the grid is adjacent to (r, c) and names a constraint inside
      its matrix, and every adjacent cell has an entry. */
  function Neighbours(r: int, c: int): (ns: seq<Neighbour>)
    ensures |ns| == 4
    ensures forall j :: 0 <= j < |ns| && InBounds(r, c) && InBounds(ns[j].nr, ns[j].nc) ==>
              Adjacent(r, c, ns[j].nr, ns[j].nc) && LookupInRange(ns[j])
    ensures forall nr, nc :: Adjacent(r, c, nr, nc) ==>
              exists j :: 0 <= j < |ns| && ns[j].nr == nr && ns[j].nc == nc
  {
    var ns :=
      [ Neighbour(r - 1, c, H, r - 1, c)
      , Neighbour(r + 1, c, H, r, c)
      , Neighbour(r, c - 1, V, r, c - 1)
      , Neighbour(r, c + 1, V, r, c)
      ];
    assert forall nr, nc :: Adjacent(r, c, nr, nc) ==>
      (nr == ns[0].nr && nc == ns[0].nc) || (nr == ns[1].nr && nc == ns[1].nc) ||
      (nr == ns[2].nr && nc == ns[2].nc) || (nr == ns[3].nr && nc == ns[3].nc);
    ns
  }

  /** Each table entry reads the constraint on the edge it crosses. */
  lemma NeighbourLookup(h: HMatrix, v: VMatrix, r: int, c: int, j: int)
    requires InBounds(r, c) && 0 <= j < 4
    requires InBounds(Neighbours(r, c)[j].nr, Neighbours(r, c)[j].nc)
    ensures LookupInRange(Neighbours(r, c)[j])
    ensures Adjacent(r, c, Neighbours(r, c)[j].nr, Neighbours(r, c)[j].nc)
    ensures Lookup(h, v, Neighbours(r, c)[j])
         == EdgeBetween(h, v, r, c, Neighbours(r, c)[j].nr, Neighbours(r, c)[j].nc)
  {
  }

  /** The edge rule, restricted to one table entry. */
  ghost predicate EntryAgrees(g: Grid, h: HMatrix, v: VMatrix, r: int, c: int, n: Neighbour)
    requires InBounds(r, c)
  {
    InBounds(n.nr, n.nc) && Adjacent(r, c, n.nr, n.nc) && g[n.nr][n.nc] != Empty ==>
      Agrees(EdgeBetween(h, v, r, c, n.nr, n.nc), g[r][c], g[n.nr][n.nc])
  }

  /** When none of the three windows the solver tests holds three copies of
      line[k], no window of three equal cells covers index k. */
  lemma NoRunAround(line: seq<Cell>, k: int)
    requires |line| == N && 0 <= k < N && line[k] != Empty
    requires !(k > 0 && k < N - 1 && line[k - 1] == line[k] && line[k + 1] == line[k])
    requires !(k > 1 && line[k - 1] == line[k] && line[k - 2] == line[k])
    requires !(k < N - 2 && line[k + 1] == line[k] && line[k + 2] == line[k])
    ensures forall s :: k - 2 <= s <= k ==> !RunAt(line, s)
  {
  }

  /** Run-length rule for the value in the filled cell (r, c): the three
      windows of length three that hold (r, c), in its row and in its column,
      each checked only where it fits on the grid. */
  method NoTripleCheck(g: Grid, r: int, c: int) returns (ok: bool)
    requires InBounds(r, c) && g[r][c] != Empty
    ensures ok <==> NoTripleAt(g, r, c)
  {
    var val := g[r][c];
    if c > 0 && c < N - 1 && g[r][c - 1] == val && g[r][c + 1] == val {
      assert RunAt(Row(g, r), c - 1);
      return false;
    }
    if c > 1 && g[r][c - 1] == val && g[r][c - 2] == val {
      assert RunAt(Row(g, r), c - 2);
      return false;
    }
    if c < N - 2 && g[r][c + 1] == val && g[r][c + 2] == val {
      assert RunAt(Row(g, r), c);
      return false;
    }
    ghost var col := Column(g, c);
    assert forall i :: 0 <= i < N ==> col[i] == g[i][c];
    if r > 0 && r < N - 1 && g[r - 1][c] == val && g[r + 1][c] == val {
      assert RunAt(col, r - 1);
      return false;
    }
    if r > 1 && g[r - 1][c] == val && g[r - 2][c] == val {
      assert RunAt(col, r - 2);
      return false;
    }
    if r < N - 2 && g[r + 1][c] == val && g[r + 2][c] == val {
      assert RunAt(col, r);
      return false;
    }
    NoRunAround(Row(g, r), c);
    NoRunAround(col, r);
    return true;
  }

  /** The suns and moons in row r and in column c, counted in one pass. */
  method CountLines(g: Grid, r: int, c: int) returns (sunRow: nat, moonRow: nat, sunCol: nat, moonCol: nat)
    requires InBounds(r, c)
    ensures sunRow == Count(Row(g, r), Sun) && moonRow == Count(Row(g, r), Moon)
    ensures sunCol == Count(Column(g, c), Sun) && moonCol == Count(Column(g, c), Moon)
  {
    ghost var row, col := Row(g, r), Column(g, c);
    sunRow, moonRow, sunCol, moonCol := 0, 0, 0, 0;
    for i := 0 to N
      invariant sunRow == Count(row[..i], Sun) && moonRow == Count(row[..i], Moon)
      invariant sunCol == Count(col[..i], Sun) && moonCol == Count(col[..i], Moon)
    {
      assert row[..i + 1][..i] == row[..i];
      assert col[..i + 1][..i] == col[..i];
      if g[r][i] == Sun {
        sunRow := sunRow + 1;
      } else if g[r][i] == Moon {
        moonRow := moonRow + 1;
      }
      if g[i][c] == Sun {
        sunCol := sunCol + 1;
      } else if g[i][c] == Moon {
        moonCol := moonCol + 1;
      }
    }
    assert row[..N] == row;
    assert col[..N] == col;
  }

  /** Edge rule for the value in (r, c): each neighbour of the table that
      lies on the grid and is filled must satisfy the constraint stored for
      the shared edge. */
  method EdgeCheck(g: Grid, r: int, c: int, h: HMatrix, v: VMatrix) returns (ok: bool)
    requires InBounds(r, c)
    ensures ok <==> EdgesAgreeAt(g, h, v, r, c)
  {
    var val := g[r][c];
    var ns := Neighbours(r, c);
    for k := 0 to |ns|
      invariant forall j :: 0 <= j < k ==> EntryAgrees(g, h, v, r, c, ns[j])
    {
      var Neighbour(nr, nc, dir, cr, cc) := ns[k];
      if 0 <= nr < N && 0 <= nc < N {
        var neighbourVal := g[nr][nc];
        if neighbourVal != Empty {
          NeighbourLookup(h, v, r, c, k);
          var constraint := if dir == H then h[cr][cc] else v[cr][cc];
          if constraint == Same && val != neighbourVal {
            assert !EntryAgrees(g, h, v, r, c, ns[k]);
            return false;
          }
          if constraint == Differ && val == neighbourVal {
            assert !EntryAgrees(g, h, v, r, c, ns[k]);
            return false;
          }
        }
      }
    }
    forall nr, nc | InBounds(nr, nc) && Adjacent(r, c, nr, nc) && g[nr][nc] != Empty
      ensures Agrees(EdgeBetween(h, v, r, c, nr, nc), g[r][c], g[nr][nc])
    {
      var j :| 0 <= j < |ns| && ns[j].nr == nr && ns[j].nc == nc;
      assert EntryAgrees(g, h, v, r, c, ns[j]);
    }
    return true;
  }

  /** Whether the value in (r, c) breaks none of the three rules: no three
      equal in a row or column, at most Target of each symbol in its row and
      column, and every filled neighbour satisfying the shared edge. An
      empty cell always passes. */
  method IsPlacementValid(g: Grid, r: int, c: int, h: HMatrix, v: VMatrix) returns (ok: bool)
    requires InBounds(r, c)
    ensures g[r][c] == Empty ==> ok
    ensures ok <==> PlacementOk(g, h, v, r, c)
  {
    if g[r][c] == Empty {
      return true;
    }
    var noTriple := NoTripleCheck(g, r, c);
    if !noTriple {
      return false;
    }
    var sunRow, moonRow, sunCol, moonCol := CountLines(g, r, c);
    if sunRow > Target || moonRow > Target {
      return false;
    }
    if sunCol > Target || moonCol > Target {
      return false;
    }
    ok := EdgeCheck(g, r, c, h, v);
  }

  /** Whether every row and every column holds exactly Target suns and
      Target moons. */
  method IsBoardCompleteAndValid(g: Grid) returns (ok: bool)
    ensures ok <==> Complete(g)
  {
    for i := 0 to N
      invariant forall i' :: 0 <= i' < i ==> ExactlyBalanced(Row(g, i')) && ExactlyBalanced(Column(g, i'))
    {
      var sunRow, moonRow, sunCol, moonCol := CountLines(g, i, i);
      if sunRow != Target || moonRow != Target {
        return false;
      }
      if sunCol != Target || moonCol != Target {
        return false;
      }
    }
    return true;
  }

  /** (r1, c1) comes before (r2, c2) in row-major order. */
  predicate Before(r1: int, c1: int, r2: int, c2: int) {
    r1 < r2 || (r1 == r2 && c1 < c2)
  }

  /** The first empty cell in row-major order, or None when the grid is full. */
  method FindEmpty(g: Grid) returns (found: Option<Pos>)
    ensures found.None? <==> Full(g)
    ensures found.Some? ==> InBounds(found.value.r, found.value.c) && g[found.value.r][found.value.c] == Empty
    ensures found.Some? ==> forall r, c :: InBounds(r, c) && Before(r, c, found.value.r, found.value.c) ==> g[r][c] != Empty
  {
    for r := 0 to N
      invariant forall r', c' :: 0 <= r' < r && 0 <= c' < N ==> g[r'][c'] != Empty
    {
      for c := 0 to N
        invariant forall c' :: 0 <= c' < c ==> g[r][c'] != Empty
      {
        if g[r][c] == Empty {
          return Some(Pos(r, c));
        }
      }
    }
    return None;
  }

  /** The check at the bottom of the search, on a grid with no empty cell:
      every cell passes the placement check again, and every row and column
      is exactly balanced. */
  method CheckFullBoard(g: Grid, h: HMatrix, v: VMatrix) returns (ok: bool)
    requires Full(g)
    ensures ok <==> Solution(g, h, v)
  {
    for r := 0 to N
      invariant forall r', c' :: 0 <= r' < r && 0 <= c' < N ==> PlacementOk(g, h, v, r', c')
    {
      for c := 0 to N
        invariant forall c' :: 0 <= c' < c ==> PlacementOk(g, h, v, r, c')
      {
        var valid := IsPlacementValid(g, r, c, h, v);
        if !valid {
          return false;
        }
      }
    }
    ok := IsBoardCompleteAndValid(g);
  }

  /** Depth-first backtracking search. Fills the first empty cell in
      row-major order with a sun, then a moon, keeping a value only while it
      passes the placement check, and recurses; when both values fail the
      cell is emptied again. With no empty cell left, every cell is checked
      again and then the exact balance of every row and column.

      Success leaves a solution that keeps every value the grid started
      with; failure leaves the grid exactly as it was. The search succeeds
      precisely when some board obeying the puzzle's rules keeps the grid's
      filled values. */
  method Solve(g: Grid, h: HMatrix, v: VMatrix) returns (solved: bool, grid: Grid)
    ensures solved ==> Solution(grid, h, v) && Extends(g, grid)
    ensures !solved ==> grid == g
    ensures solved <==> Solvable(g, h, v)
    ensures solved <==> HasCompletion(g, h, v)
    decreases EmptyCells(g)
  {
    SolvableIffHasCompletion(g, h, v);
    var find := FindEmpty(g);
    if find.None? {
      solved := CheckFullBoard(g, h, v);
      FullSolvable(g, h, v);
      assert Extends(g, g);
      return solved, g;
    }

    var Pos(r, c) := find.value;
    grid := g;
    PutSame(g, r, c);
    var candidates := [Sun, Moon];
    for k := 0 to |candidates|
      invariant grid == Put(g, r, c, grid[r][c])
      invariant forall j :: 0 <= j < k ==> !Solvable(Put(g, r, c, candidates[j]), h, v)
    {
      PutPut(g, r, c, grid[r][c], candidates[k]);
      grid := Put(grid, r, c, candidates[k]);
      var valid := IsPlacementValid(grid, r, c, h, v);
      if valid {
        FillShrinks(g, r, c, candidates[k]);
        var found, after := Solve(grid, h, v);
        if found {
          FilledSolvable(g, h, v, r, c, candidates[k], after);
          return true, after;
        }
        grid := after;
      } else {
        RejectedUnsolvable(grid, h, v, r, c);
      }
    }
    assert !Solvable(Put(g, r, c, candidates[0]), h, v);
    assert !Solvable(Put(g, r, c, candidates[1]), h, v);
    SolvableSplits(g, h, v, r, c);
    PutPut(g, r, c, grid[r][c], Empty);
    PutSame(g, r, c);
    grid := Put(grid, r, c, Empty);
    return false, grid;
  }
}
