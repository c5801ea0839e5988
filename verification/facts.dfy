/** Facts about the Tango rules that the solver's proof and its callers rely on. */
module TangoFacts {
  import opened TangoRules

  // ---------------------------------------------------------------- counting

  /** Every cell of a line is empty, a sun or a moon, so the three counts add up. */
  lemma {:induction false} CountParts(line: seq<Cell>)
    ensures Count(line, Sun) + Count(line, Moon) + Count(line, Empty) == |line|
  {
    if |line| > 0 {
      CountParts(line[..|line| - 1]);
    }
  }

  /** A value that is counted zero times occurs nowhere in the line. */
  lemma {:induction false} CountZero(line: seq<Cell>, x: Cell, i: int)
    requires Count(line, x) == 0 && 0 <= i < |line|
    ensures line[i] != x
  {
    if i < |line| - 1 {
      CountZero(line[..|line| - 1], x, i);
    }
  }

  /** b keeps every filled cell of a. */
  predicate LineExtends(a: seq<Cell>, b: seq<Cell>) {
    |a| == |b| && forall i :: 0 <= i < |a| && a[i] != Empty ==> b[i] == a[i]
  }

  /** Filling in cells can only raise the number of suns and moons. */
  lemma {:induction false} CountMonotone(a: seq<Cell>, b: seq<Cell>, x: Cell)
    requires LineExtends(a, b) && x != Empty
    ensures Count(a, x) <= Count(b, x)
  {
    if |a| > 0 {
      var n := |a| - 1;
      assert LineExtends(a[..n], b[..n]);
      CountMonotone(a[..n], b[..n], x);
    }
  }

  /** An exactly balanced row or column of six holds no empty cell. */
  lemma ExactlyBalancedIsFull(line: seq<Cell>, i: int)
    requires |line| == N && ExactlyBalanced(line) && 0 <= i < N
    ensures line[i] != Empty
  {
    CountParts(line);
    CountZero(line, Empty, i);
  }

  /** Exact balance of the rows alone already rules out empty cells. */
  lemma CompleteIsFull(g: Grid)
    requires forall i :: 0 <= i < N ==> ExactlyBalanced(Row(g, i))
    ensures Full(g)
  {
    forall r, c | InBounds(r, c)
      ensures g[r][c] != Empty
    {
      ExactlyBalancedIsFull(Row(g, r), c);
    }
  }

  // ------------------------------------------------------------------ writes

  /** Writing back the value a cell already holds changes nothing. */
  lemma PutSame(g: Grid, r: int, c: int)
    requires InBounds(r, c)
    ensures Put(g, r, c, g[r][c]) == g
  {
    assert g[r][c := g[r][c]] == g[r];
  }

  /** Only the last of two writes to the same cell is visible. */
  lemma PutPut(g: Grid, r: int, c: int, x: Cell, y: Cell)
    requires InBounds(r, c)
    ensures Put(Put(g, r, c, x), r, c, y) == Put(g, r, c, y)
  {
    assert g[r][c := x][c := y] == g[r][c := y];
  }

  // -------------------------------------------------------------- extension

  /** A full grid is extended only by itself. */
  lemma FullExtendsOnlyItself(g: Grid, s: Grid)
    requires Full(g) && Extends(g, s)
    ensures s == g
  {
    forall r | 0 <= r < N
      ensures s[r] == g[r]
    {
      assert forall c :: 0 <= c < N ==> s[r][c] == g[r][c];
    }
  }

  /** The lines of an extension extend the lines of the original. */
  lemma LinesExtend(g: Grid, s: Grid, i: int)
    requires Extends(g, s) && 0 <= i < N
    ensures LineExtends(Row(g, i), Row(s, i))
    ensures LineExtends(Column(g, i), Column(s, i))
  {
    assert forall j :: 0 <= j < N ==> Column(g, i)[j] == g[j][i] && Column(s, i)[j] == s[j][i];
  }

  /** A filled cell whose value some solution keeps already satisfies every
      placement rule: removing values from a consistent board cannot create
      a triple, overfill a line or break an edge. */
  lemma PlacementOkBelowSolution(g: Grid, s: Grid, h: HMatrix, v: VMatrix, r: int, c: int)
    requires InBounds(r, c) && Extends(g, s) && Solution(s, h, v)
    ensures PlacementOk(g, h, v, r, c)
  {
    if g[r][c] != Empty {
      assert PlacementOk(s, h, v, r, c);
      forall w | c - 2 <= w <= c
        ensures RunAt(Row(g, r), w) ==> RunAt(Row(s, r), w)
      {
      }
      forall w | r - 2 <= w <= r
        ensures RunAt(Column(g, c), w) ==> RunAt(Column(s, c), w)
      {
        if 0 <= w && w + 2 < N {
          assert Column(g, c)[w] == g[w][c] && Column(s, c)[w] == s[w][c];
          assert Column(g, c)[w + 1] == g[w + 1][c] && Column(s, c)[w + 1] == s[w + 1][c];
          assert Column(g, c)[w + 2] == g[w + 2][c] && Column(s, c)[w + 2] == s[w + 2][c];
        }
      }
      LinesExtend(g, s, r);
      LinesExtend(g, s, c);
      CountMonotone(Row(g, r), Row(s, r), Sun);
      CountMonotone(Row(g, r), Row(s, r), Moon);
      CountMonotone(Column(g, c), Column(s, c), Sun);
      CountMonotone(Column(g, c), Column(s, c), Moon);
    }
  }

  /** A row or column already holding more than Target of one symbol can
      never be completed, so no solution keeps the grid's values. */
  lemma OverfullUnsolvable(g: Grid, h: HMatrix, v: VMatrix, i: int)
    requires 0 <= i < N
    requires !Balanced(Row(g, i)) || !Balanced(Column(g, i))
    ensures !Solvable(g, h, v)
  {
    forall s: Grid | Extends(g, s)
      ensures !Solution(s, h, v)
    {
      LinesExtend(g, s, i);
      CountMonotone(Row(g, i), Row(s, i), Sun);
      CountMonotone(Row(g, i), Row(s, i), Moon);
      CountMonotone(Column(g, i), Column(s, i), Sun);
      CountMonotone(Column(g, i), Column(s, i), Moon);
    }
  }

  // ------------------------------------------------------------- the search

  /** Filling an empty cell removes exactly that cell from the empty set. */
  lemma FillShrinks(g: Grid, r: int, c: int, x: Cell)
    requires InBounds(r, c) && g[r][c] == Empty && x != Empty
    ensures EmptyCells(Put(g, r, c, x)) == EmptyCells(g) - {(r, c)}
    ensures EmptyCells(Put(g, r, c, x)) < EmptyCells(g)
  {
    assert (r, c) in EmptyCells(g);
  }

  /** On a full grid, being solvable and being a solution coincide. */
  lemma FullSolvable(g: Grid, h: HMatrix, v: VMatrix)
    requires Full(g)
    ensures Solvable(g, h, v) <==> Solution(g, h, v)
  {
    forall s: Grid | Extends(g, s)
      ensures s == g
    {
      FullExtendsOnlyItself(g, s);
    }
    assert Extends(g, g);
  }

  /** A value that breaks a placement rule cannot be part of any solution. */
  lemma RejectedUnsolvable(g: Grid, h: HMatrix, v: VMatrix, r: int, c: int)
    requires InBounds(r, c) && !PlacementOk(g, h, v, r, c)
    ensures !Solvable(g, h, v)
  {
    forall s: Grid | Extends(g, s)
      ensures !Solution(s, h, v)
    {
      if Solution(s, h, v) {
        PlacementOkBelowSolution(g, s, h, v, r, c);
      }
    }
  }

  /** A grid that already holds three equal symbols side by side in a row
      or a column has no solution that keeps its values. */
  lemma TripleUnsolvable(g: Grid, h: HMatrix, v: VMatrix, i: int, w: int)
    requires 0 <= i < N && 0 <= w < N
    requires (RunAt(Row(g, i), w) && g[i][w] != Empty) || (RunAt(Column(g, i), w) && g[w][i] != Empty)
    ensures !Solvable(g, h, v)
  {
    if RunAt(Row(g, i), w) && g[i][w] != Empty {
      assert !NoTripleAt(g, i, w);
      RejectedUnsolvable(g, h, v, i, w);
    } else {
      assert Column(g, i)[w] == g[w][i];
      assert !NoTripleAt(g, w, i);
      RejectedUnsolvable(g, h, v, w, i);
    }
  }

  /** A solution found after filling an empty cell keeps the original values too. */
  lemma FilledSolvable(g: Grid, h: HMatrix, v: VMatrix, r: int, c: int, x: Cell, s: Grid)
    requires InBounds(r, c) && g[r][c] == Empty
    requires Extends(Put(g, r, c, x), s) && Solution(s, h, v)
    ensures Extends(g, s) && Solvable(g, h, v)
  {
  }

  /** An extension of g also extends g with one empty cell filled as the
      extension fills it. */
  lemma ExtendsFilled(g: Grid, s: Grid, r: int, c: int)
    requires InBounds(r, c) && Extends(g, s)
    ensures Extends(Put(g, r, c, s[r][c]), s)
  {
  }

  /** Every solution that keeps g's values puts a sun or a moon into the
      empty cell (r, c), so one of the two fillings stays solvable. The
      search relies on this to give up after trying both. */
  lemma SolvableSplits(g: Grid, h: HMatrix, v: VMatrix, r: int, c: int)
    requires InBounds(r, c) && g[r][c] == Empty
    ensures Solvable(g, h, v) ==> Solvable(Put(g, r, c, Sun), h, v) || Solvable(Put(g, r, c, Moon), h, v)
  {
    if Solvable(g, h, v) {
      var s: Grid :| Extends(g, s) && Solution(s, h, v);
      var x := s[r][c];
      ExtendsFilled(g, s, r, c);
      assert Extends(Put(g, r, c, x), s) && Solution(s, h, v);
      if x == Sun {
        assert Solvable(Put(g, r, c, Sun), h, v);
      } else {
        assert x == Moon;
        assert Solvable(Put(g, r, c, Moon), h, v);
      }
    }
  }

  // -------------------------------------------------------------- solutions

  /** The constraint on an edge does not depend on which end names it. */
  lemma EdgeBetweenSymmetric(h: HMatrix, v: VMatrix, r1: int, c1: int, r2: int, c2: int)
    requires InBounds(r1, c1) && InBounds(r2, c2) && Adjacent(r1, c1, r2, c2)
    ensures Adjacent(r2, c2, r1, c1)
    ensures EdgeBetween(h, v, r1, c1, r2, c2) == EdgeBetween(h, v, r2, c2, r1, c1)
  {
  }

  /** A solution obeys the puzzle's rules everywhere: no three equal cells in
      a row or column, exact balance of every line, and every marked edge
      respected by the two cells it joins. */
  lemma SolutionObeysRules(s: Grid, h: HMatrix, v: VMatrix)
    requires Solution(s, h, v)
    ensures forall i, w :: 0 <= i < N ==> !RunAt(Row(s, i), w) && !RunAt(Column(s, i), w)
    ensures forall i :: 0 <= i < N ==> ExactlyBalanced(Row(s, i)) && ExactlyBalanced(Column(s, i))
    ensures forall r, c :: 0 <= r < N - 1 && 0 <= c < N ==> Agrees(h[r][c], s[r][c], s[r + 1][c])
    ensures forall r, c :: 0 <= r < N && 0 <= c < N - 1 ==> Agrees(v[r][c], s[r][c], s[r][c + 1])
  {
    forall i, w | 0 <= i < N
      ensures !RunAt(Row(s, i), w) && !RunAt(Column(s, i), w)
    {
      if 0 <= w < N {
        assert PlacementOk(s, h, v, i, w) && PlacementOk(s, h, v, w, i);
      }
    }
    forall r, c | 0 <= r < N - 1 && 0 <= c < N
      ensures Agrees(h[r][c], s[r][c], s[r + 1][c])
    {
      assert PlacementOk(s, h, v, r, c);
      assert EdgeBetween(h, v, r, c, r + 1, c) == h[r][c];
    }
    forall r, c | 0 <= r < N && 0 <= c < N - 1
      ensures Agrees(v[r][c], s[r][c], s[r][c + 1])
    {
      assert PlacementOk(s, h, v, r, c);
      assert EdgeBetween(h, v, r, c, r, c + 1) == v[r][c];
    }
  }

  /** The converse of SolutionObeysRules: a board that obeys the puzzle's
      rules everywhere passes every check the search makes at its end. */
  lemma RulesImplySolution(s: Grid, h: HMatrix, v: VMatrix)
    requires ObeysRules(s, h, v)
    ensures Solution(s, h, v)
  {
    forall r, c | InBounds(r, c)
      ensures PlacementOk(s, h, v, r, c)
    {
      forall nr, nc | InBounds(nr, nc) && Adjacent(r, c, nr, nc) && s[nr][nc] != Empty
        ensures Agrees(EdgeBetween(h, v, r, c, nr, nc), s[r][c], s[nr][nc])
      {
        if nr == r + 1 {
          assert Agrees(h[r][c], s[r][c], s[r + 1][c]);
        } else if r == nr + 1 {
          assert Agrees(h[nr][c], s[nr][c], s[nr + 1][c]);
        } else if nc == c + 1 {
          assert Agrees(v[r][c], s[r][c], s[r][c + 1]);
        } else {
          assert Agrees(v[r][nc], s[r][nc], s[r][nc + 1]);
        }
      }
    }
  }

  /** Having a solution that keeps g's values is the same as having a board
      that obeys the puzzle's rules and keeps g's values. */
  lemma SolvableIffHasCompletion(g: Grid, h: HMatrix, v: VMatrix)
    ensures Solvable(g, h, v) <==> HasCompletion(g, h, v)
  {
    if Solvable(g, h, v) {
      var s: Grid :| Extends(g, s) && Solution(s, h, v);
      SolutionObeysRules(s, h, v);
      assert Extends(g, s) && ObeysRules(s, h, v);
    }
    if HasCompletion(g, h, v) {
      var s: Grid :| Extends(g, s) && ObeysRules(s, h, v);
      RulesImplySolution(s, h, v);
      assert Extends(g, s) && Solution(s, h, v);
    }
  }
}
