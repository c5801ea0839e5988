/** The rules of the 6×6 Tango puzzle, stated declaratively.

    A grid cell is empty, a sun or a moon. Two constraint matrices sit beside
    the grid: the horizontal one (5×6) relates cell (r, c) to the cell below
    it, (r + 1, c); the vertical one (6×5) relates cell (r, c) to the cell to
    its right, (r, c + 1). Each edge is unconstrained, must-be-equal or
    must-differ.

    Nothing in this module computes the way the solver does; the solver's
    operations are proved against these definitions.
 */
module TangoRules {

  /** Side length of the grid. */
  const N: nat := 6

  /** How many suns (and how many moons) a finished row or column holds. */
  const Target: nat := N / 2

  /** A grid cell: 0, 1 and -1 in the puzzle's integer encoding. */
  datatype Cell = Empty | Sun | Moon

  /** An edge constraint: 0, 1 ('=') and -1 ('X') in the integer encoding. */
  datatype Relation = Free | Same | Differ

  predicate IsMatrix<T>(m: seq<seq<T>>, rows: nat, cols: nat) {
    |m| == rows && forall i :: 0 <= i < |m| ==> |m[i]| == cols
  }

  /** The N×N grid. */
  type Grid = g: seq<seq<Cell>> | IsMatrix(g, N, N)
    witness seq(N, _ => seq(N, _ => Empty))

  /** Constraints between vertically adjacent cells: (N-1)×N. */
  type HMatrix = m: seq<seq<Relation>> | IsMatrix(m, N - 1, N)
    witness seq(N - 1, _ => seq(N, _ => Free))

  /** Constraints between horizontally adjacent cells: N×(N-1). */
  type VMatrix = m: seq<seq<Relation>> | IsMatrix(m, N, N - 1)
    witness seq(N, _ => seq(N - 1, _ => Free))

  predicate InBounds(r: int, c: int) {
    0 <= r < N && 0 <= c < N
  }

  /** Whether two cell values satisfy an edge constraint. */
  predicate Agrees(rel: Relation, a: Cell, b: Cell) {
    match rel
    case Free => true
    case Same => a == b
    case Differ => a != b
  }

  /** The grid with cell (r, c) overwritten by x. */
  function Put(g: Grid, r: int, c: int, x: Cell): Grid
    requires InBounds(r, c)
  {
    g[r := g[r][c := x]]
  }

  // ---------------------------------------------------------------- lines

  function Row(g: Grid, r: int): seq<Cell>
    requires 0 <= r < N
  {
    g[r]
  }

  function Column(g: Grid, c: int): seq<Cell>
    requires 0 <= c < N
  {
    seq(N, i requires 0 <= i < N => g[i][c])
  }

  /** Number of occurrences of x in a line, counted from the front. */
  function Count(line: seq<Cell>, x: Cell): nat
  {
    if |line| == 0 then 0
    else Count(line[..|line| - 1], x) + (if line[|line| - 1] == x then 1 else 0)
  }

  /** No symbol appears more than Target times (the mid-search bound). */
  predicate Balanced(line: seq<Cell>) {
    Count(line, Sun) <= Target && Count(line, Moon) <= Target
  }

  /** Exactly Target suns and Target moons (the finished-board condition). */
  predicate ExactlyBalanced(line: seq<Cell>) {
    Count(line, Sun) == Target && Count(line, Moon) == Target
  }

  /** Three equal cells start at index s of the line. */
  predicate RunAt(line: seq<Cell>, s: int) {
    0 <= s && s + 2 < |line| && line[s] == line[s + 1] == line[s + 2]
  }

  // ------------------------------------------------------------ neighbours

  predicate Adjacent(r1: int, c1: int, r2: int, c2: int) {
    || (r1 == r2 && (c2 == c1 + 1 || c1 == c2 + 1))
    || (c1 == c2 && (r2 == r1 + 1 || r1 == r2 + 1))
  }

  /** The constraint on the edge shared by two adjacent cells, whichever of
      the two is named first. */
  function EdgeBetween(h: HMatrix, v: VMatrix, r1: int, c1: int, r2: int, c2: int): Relation
    requires InBounds(r1, c1) && InBounds(r2, c2) && Adjacent(r1, c1, r2, c2)
  {
    if r2 == r1 + 1 then h[r1][c1]
    else if r1 == r2 + 1 then h[r2][c1]
    else if c2 == c1 + 1 then v[r1][c1]
    else v[r1][c2]
  }

  // ------------------------------------------------------ placement rules

  /** Run-length rule: no window of three equal cells covers (r, c). */
  predicate NoTripleAt(g: Grid, r: int, c: int)
    requires InBounds(r, c)
  {
    && (forall s :: c - 2 <= s <= c ==> !RunAt(Row(g, r), s))
    && (forall s :: r - 2 <= s <= r ==> !RunAt(Column(g, c), s))
  }

  /** Balance rule over the whole row and the whole column of (r, c). */
  predicate BalancedAt(g: Grid, r: int, c: int)
    requires InBounds(r, c)
  {
    Balanced(Row(g, r)) && Balanced(Column(g, c))
  }

  /** Edge rule: every filled neighbour satisfies the edge it shares with (r, c). */
  ghost predicate EdgesAgreeAt(g: Grid, h: HMatrix, v: VMatrix, r: int, c: int)
    requires InBounds(r, c)
  {
    forall nr, nc ::
      InBounds(nr, nc) && Adjacent(r, c, nr, nc) && g[nr][nc] != Empty ==>
        Agrees(EdgeBetween(h, v, r, c, nr, nc), g[r][c], g[nr][nc])
  }

  /** The value in (r, c) is consistent with the rest of the grid; an empty
      cell is vacuously consistent. */
  ghost predicate PlacementOk(g: Grid, h: HMatrix, v: VMatrix, r: int, c: int)
    requires InBounds(r, c)
  {
    g[r][c] == Empty || (NoTripleAt(g, r, c) && BalancedAt(g, r, c) && EdgesAgreeAt(g, h, v, r, c))
  }

  // ---------------------------------------------------------- whole board

  ghost predicate Full(g: Grid) {
    forall r, c :: InBounds(r, c) ==> g[r][c] != Empty
  }

  ghost predicate AllPlacementsOk(g: Grid, h: HMatrix, v: VMatrix) {
    forall r, c :: InBounds(r, c) ==> PlacementOk(g, h, v, r, c)
  }

  /** Every row and every column is exactly balanced. */
  predicate Complete(g: Grid) {
    forall i :: 0 <= i < N ==> ExactlyBalanced(Row(g, i)) && ExactlyBalanced(Column(g, i))
  }

  /** A solved board: no empty cell, every cell consistent, exact balance. */
  ghost predicate Solution(g: Grid, h: HMatrix, v: VMatrix) {
    Full(g) && AllPlacementsOk(g, h, v) && Complete(g)
  }

  /** s keeps every value that g has filled in. */
  ghost predicate Extends(g: Grid, s: Grid) {
    forall r, c :: InBounds(r, c) && g[r][c] != Empty ==> s[r][c] == g[r][c]
  }

  /** Some solution keeps every filled cell of g. */
  ghost predicate Solvable(g: Grid, h: HMatrix, v: VMatrix) {
    exists s: Grid :: Extends(g, s) && Solution(s, h, v)
  }

  /** The puzzle's rules for a finished board, stated on the whole board:
      no empty cell, no three equal cells side by side in any row or column,
      exactly Target suns and Target moons in every line, and every marked
      edge respected by the two cells it joins. */
  ghost predicate ObeysRules(s: Grid, h: HMatrix, v: VMatrix) {
    && Full(s)
    && (forall i, w :: 0 <= i < N ==> !RunAt(Row(s, i), w) && !RunAt(Column(s, i), w))
    && (forall i :: 0 <= i < N ==> ExactlyBalanced(Row(s, i)) && ExactlyBalanced(Column(s, i)))
    && (forall r, c :: 0 <= r < N - 1 && 0 <= c < N ==> Agrees(h[r][c], s[r][c], s[r + 1][c]))
    && (forall r, c :: 0 <= r < N && 0 <= c < N - 1 ==> Agrees(v[r][c], s[r][c], s[r][c + 1]))
  }

  /** Some board obeying the puzzle's rules keeps every filled cell of g. */
  ghost predicate HasCompletion(g: Grid, h: HMatrix, v: VMatrix) {
    exists s: Grid :: Extends(g, s) && ObeysRules(s, h, v)
  }

  /** The empty cells of g, the measure the search shrinks. */
  function EmptyCells(g: Grid): set<(int, int)> {
    set r, c | 0 <= r < N && 0 <= c < N && g[r][c] == Empty :: (r, c)
  }
}
