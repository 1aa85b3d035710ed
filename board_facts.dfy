/**
 * What the board operations promise: the goal table and the goal board agree,
 * the heuristic vanishes exactly on the goal, the blank has 2, 3 or 4 moves,
 * a move only rearranges tiles and changes the heuristic by exactly one.
 */
module BoardFacts {
  import opened Wrappers
  import opened Board

  /** The heuristic's goal table and the goal board describe the same arrangement. */
  lemma GoalTableMatchesGoalBoard()
    ensures IsGrid(GoalBoard) && Distinct(GoalBoard)
    ensures forall v :: 0 <= v <= 8 ==> Cell(GoalBoard, GoalPos(v)) == v
    ensures forall k :: 0 <= k < 9 ==> GoalPos(At(GoalBoard, k)) == PosOf(k)
  {
  }

  lemma {:induction false} DistanceFromGoalIsZero(k: nat)
    requires k <= 9
    ensures WellFormed(GoalBoard) && DistanceFrom(GoalBoard, k) == 0
    decreases 9 - k
  {
    GoalTableMatchesGoalBoard();
    if k < 9 {
      DistanceFromGoalIsZero(k + 1);
    }
  }

  /** A zero suffix sum means every tile from index k on sits on its goal cell. */
  lemma {:induction false} DistanceZeroAtEachCell(b: Grid, k: nat)
    requires WellFormed(b) && k <= 9 && DistanceFrom(b, k) == 0
    ensures forall m :: k <= m < 9 ==> TileDistance(At(b, m), PosOf(m)) == 0
    decreases 9 - k
  {
    if k < 9 {
      DistanceZeroAtEachCell(b, k + 1);
    }
  }

  /** A tile at distance zero sits where the goal board has it. */
  lemma TileHome(v: int, m: int)
    requires 1 <= v <= 8 && 0 <= m < 9 && TileDistance(v, PosOf(m)) == 0
    ensures v == At(GoalBoard, m)
  {
    assert GoalPos(v) == PosOf(m);
  }

  /** With the heuristic at zero and no value repeated, every cell matches the goal board. */
  lemma ZeroDistanceCellwise(b: Grid)
    requires WellFormed(b) && Distinct(b) && Manhattan(b) == 0
    ensures forall m :: 0 <= m < 9 ==> At(b, m) == At(GoalBoard, m)
  {
    DistanceZeroAtEachCell(b, 0);
    forall m | 0 <= m < 9 && At(b, m) != 0
      ensures At(b, m) == At(GoalBoard, m)
    {
      TileHome(At(b, m), m);
    }
    assert At(GoalBoard, 4) == 0;
    assert At(b, 4) == 0;
    forall m | 0 <= m < 9 ensures At(b, m) == At(GoalBoard, m) {
      if m < 4 { assert At(b, m) != At(b, 4); }
      else if m > 4 { assert At(b, 4) != At(b, m); }
    }
  }

  /** A 3x3 board is determined by its cells in row-major order. */
  lemma FlattenInjective(b: Grid, c: Grid)
    requires IsGrid(b) && IsGrid(c) && forall m :: 0 <= m < 9 ==> At(b, m) == At(c, m)
    ensures b == c
  {
    assert |Flatten(b)| == 9 == |Flatten(c)|;
    forall m | 0 <= m < 9 ensures Flatten(b)[m] == Flatten(c)[m] {
      assert At(b, m) == At(c, m);
    }
    assert Flatten(b) == Flatten(c);
    assert b[0] == Flatten(b)[0..3] && b[1] == Flatten(b)[3..6] && b[2] == Flatten(b)[6..9];
    assert c[0] == Flatten(c)[0..3] && c[1] == Flatten(c)[3..6] && c[2] == Flatten(c)[6..9];
  }

  /** The goal test holds exactly when every cell matches the goal board. */
  lemma GoalIffCellwise(b: Grid)
    requires IsGrid(b)
    ensures IsGoal(b) <==> forall m :: 0 <= m < 9 ==> At(b, m) == At(GoalBoard, m)
  {
    if forall m :: 0 <= m < 9 ==> At(b, m) == At(GoalBoard, m) {
      FlattenInjective(b, GoalBoard);
    }
  }

  /**
   * On a board holding nine distinct values 0..8, the heuristic is zero
   * exactly on the goal board; in particular it is zero on the goal.
   */
  lemma ManhattanZeroIffGoal(b: Grid)
    requires WellFormed(b) && Distinct(b)
    ensures Manhattan(b) == 0 <==> IsGoal(b)
  {
    if IsGoal(b) {
      DistanceFromGoalIsZero(0);
    }
    if Manhattan(b) == 0 {
      GoalTableMatchesGoalBoard();
      ZeroDistanceCellwise(b);
      FlattenInjective(b, GoalBoard);
    }
  }

  /** The heuristic never counts the blank, so it is zero on the goal board. */
  lemma ManhattanOfGoal()
    ensures WellFormed(GoalBoard) && Manhattan(GoalBoard) == 0
  {
    DistanceFromGoalIsZero(0);
  }

  predicate IsCorner(p: Pos) { (p.row == 0 || p.row == 2) && (p.col == 0 || p.col == 2) }
  predicate IsCentre(p: Pos) { p.row == 1 && p.col == 1 }
  predicate IsEdge(p: Pos) { InBounds(p) && !IsCorner(p) && !IsCentre(p) }

  /** One move per direction that stays on the board. */
  lemma TargetsLength(z: Pos)
    requires InBounds(z)
    ensures |Targets(z)| == (if z.row > 0 then 1 else 0) + (if z.row < 2 then 1 else 0)
                          + (if z.col > 0 then 1 else 0) + (if z.col < 2 then 1 else 0)
  {
    TargetsUnfold(z);
    StepLengths(z);
    var a, b, c, d := Step(z, 0), Step(z, 1), Step(z, 2), Step(z, 3);
    assert |a + b + c + d| == |a| + |b| + |c| + |d|;
  }

  /** The blank has two moves from a corner, three from an edge and four from the centre. */
  lemma TargetsCount(z: Pos)
    requires InBounds(z)
    ensures IsCorner(z) ==> |Targets(z)| == 2
    ensures IsEdge(z) ==> |Targets(z)| == 3
    ensures IsCentre(z) ==> |Targets(z)| == 4
  {
    TargetsLength(z);
    MovesByKind(z, |Targets(z)|);
  }

  lemma MovesByKind(z: Pos, n: int)
    requires InBounds(z)
    requires n == (if z.row > 0 then 1 else 0) + (if z.row < 2 then 1 else 0)
                + (if z.col > 0 then 1 else 0) + (if z.col < 2 then 1 else 0)
    ensures IsCorner(z) ==> n == 2
    ensures IsEdge(z) ==> n == 3
    ensures IsCentre(z) ==> n == 4
  {
    if z.row == 1 {
      assert n == 2 + (if z.col > 0 then 1 else 0) + (if z.col < 2 then 1 else 0);
    } else {
      assert n == 1 + (if z.col > 0 then 1 else 0) + (if z.col < 2 then 1 else 0);
    }
  }

  /** Exchanging two entries of a sequence keeps its multiset. */
  lemma ExchangeKeepsMultiset(s: seq<int>, i: int, j: int)
    requires 0 <= i < |s| && 0 <= j < |s|
    ensures multiset(s[i := s[j]][j := s[i]]) == multiset(s)
  {
    if i != j {
      var t := s[i := s[j]];
      assert multiset(t) == multiset(s) - multiset{s[i]} + multiset{s[j]};
      assert t[j] == s[j];
      assert multiset(t[j := s[i]]) == multiset(t) - multiset{s[j]} + multiset{s[i]};
    }
  }

  /** The k-th cell of a board, read through its position. */
  lemma AtCell(b: Grid, k: int)
    requires IsGrid(b) && 0 <= k < 9
    ensures At(b, k) == Cell(b, PosOf(k))
  {
    PosOfIndex(k);
    CellAt(b, PosOf(k));
  }

  /** In row-major order, swapping cells p and q exchanges two entries. */
  lemma FlattenSwap(b: Grid, p: Pos, q: Pos)
    requires IsGrid(b) && InBounds(p) && InBounds(q)
    ensures 0 <= Index(p) < 9 && 0 <= Index(q) < 9
    ensures Flatten(Swap(b, p, q)) == Flatten(b)[Index(p) := At(b, Index(q))][Index(q) := At(b, Index(p))]
  {
    var r := Swap(b, p, q);
    IndexPosOf(p);
    IndexPosOf(q);
    var u := Flatten(b)[Index(p) := At(b, Index(q))][Index(q) := At(b, Index(p))];
    forall k | 0 <= k < 9 ensures Flatten(r)[k] == u[k] {
      AtCell(r, k);
      AtCell(b, k);
      if k == Index(q) {
        CellAt(b, p);
      } else if k == Index(p) {
        CellAt(b, q);
      }
    }
  }

  /** Rearranging two cells keeps the multiset of tiles. */
  lemma SwapPermutes(b: Grid, p: Pos, q: Pos)
    requires IsGrid(b) && InBounds(p) && InBounds(q)
    ensures SamePerm(Swap(b, p, q), b)
  {
    FlattenSwap(b, p, q);
    ExchangeKeepsMultiset(Flatten(b), Index(p), Index(q));
  }

  /** A board with the same tiles as a well-formed board is well formed. */
  lemma SamePermWellFormed(b: Grid, c: Grid)
    requires SamePerm(b, c) && WellFormed(c)
    ensures WellFormed(b) && (HasBlank(b) <==> HasBlank(c))
  {
    forall k | 0 <= k < 9 ensures 0 <= At(b, k) <= 8 {
      assert At(b, k) in multiset(Flatten(c));
      var m :| 0 <= m < 9 && Flatten(c)[m] == At(b, k);
      assert At(c, m) == At(b, k);
    }
    BlankInFlatten(b);
    BlankInFlatten(c);
    assert 0 in Flatten(b) <==> 0 in multiset(Flatten(b));
  }

  lemma SamePermTransitive(a: Grid, b: Grid, c: Grid)
    requires SamePerm(a, b) && SamePerm(b, c)
    ensures SamePerm(a, c)
  {
  }

  /** What cell m adds to the heuristic difference between b and c, counting only cells from index k on. */
  function CellDelta(b: Grid, c: Grid, m: int, k: int): int
    requires WellFormed(b) && WellFormed(c) && 0 <= m < 9
  {
    if m >= k then TileDistance(At(c, m), PosOf(m)) - TileDistance(At(b, m), PosOf(m)) else 0
  }

  lemma {:induction false} DistanceFromTwoCells(b: Grid, c: Grid, i: int, j: int, k: nat)
    requires WellFormed(b) && WellFormed(c) && 0 <= i < j < 9 && k <= 9
    requires forall m :: 0 <= m < 9 && m != i && m != j ==> At(c, m) == At(b, m)
    ensures DistanceFrom(c, k) - DistanceFrom(b, k) == CellDelta(b, c, i, k) + CellDelta(b, c, j, k)
    decreases 9 - k
  {
    if k < 9 {
      DistanceFromTwoCells(b, c, i, j, k + 1);
    }
  }

  /** Swapping two distinct cells exchanges their row-major entries and keeps the others. */
  lemma SwapAt(b: Grid, p: Pos, q: Pos)
    requires IsGrid(b) && InBounds(p) && InBounds(q) && p != q
    ensures 0 <= Index(p) < 9 && 0 <= Index(q) < 9 && Index(p) != Index(q)
    ensures At(Swap(b, p, q), Index(p)) == At(b, Index(q))
    ensures At(Swap(b, p, q), Index(q)) == At(b, Index(p))
    ensures forall m :: 0 <= m < 9 && m != Index(p) && m != Index(q) ==> At(Swap(b, p, q), m) == At(b, m)
  {
    FlattenSwap(b, p, q);
    IndexPosOf(p);
    IndexPosOf(q);
  }

  /** Swapping two cells changes the heuristic by what the two cells contribute. */
  lemma ManhattanAfterSwap(b: Grid, p: Pos, q: Pos)
    requires WellFormed(b) && InBounds(p) && InBounds(q) && p != q
    ensures WellFormed(Swap(b, p, q))
    ensures Manhattan(Swap(b, p, q)) - Manhattan(b)
         == TileDistance(At(b, Index(q)), p) + TileDistance(At(b, Index(p)), q)
          - TileDistance(At(b, Index(p)), p) - TileDistance(At(b, Index(q)), q)
  {
    var c := Swap(b, p, q);
    SwapPermutes(b, p, q);
    SamePermWellFormed(c, b);
    SwapAt(b, p, q);
    IndexPosOf(p);
    IndexPosOf(q);
    CellAt(b, p);
    CellAt(b, q);
    var i, j := Index(p), Index(q);
    if i < j {
      DistanceFromTwoCells(b, c, i, j, 0);
    } else {
      DistanceFromTwoCells(b, c, j, i, 0);
    }
  }

  /** One step along a row or column changes a tile's distance to its goal cell by exactly one. */
  lemma AdjacentTileDistance(v: int, p: Pos, q: Pos)
    requires 1 <= v <= 8 && Adjacent(p, q)
    ensures Abs(TileDistance(v, p) - TileDistance(v, q)) == 1
  {
  }

  /**
   * Moving the blank at z onto the adjacent cell t moves one tile one step:
   * the heuristic changes by exactly one, or not at all when the moved value is
   * itself a blank.
   */
  lemma SwapBlankHeuristic(b: Grid, z: Pos, t: Pos)
    requires WellFormed(b) && InBounds(z) && InBounds(t) && Adjacent(z, t) && Cell(b, z) == 0
    ensures WellFormed(Swap(b, z, t))
    ensures Cell(b, t) != 0 ==> Abs(Manhattan(Swap(b, z, t)) - Manhattan(b)) == 1
    ensures Cell(b, t) == 0 ==> Manhattan(Swap(b, z, t)) == Manhattan(b)
  {
    var v := Cell(b, t);
    ManhattanAfterSwap(b, z, t);
    CellAt(b, z);
    CellAt(b, t);
    assert Manhattan(Swap(b, z, t)) - Manhattan(b) == TileDistance(v, z) - TileDistance(v, t);
    if v != 0 {
      AdjacentTileDistance(v, z, t);
    }
  }

  // ---------------------------------------------------------------------------
  // Consistency and admissibility of the heuristic

  /** One move lowers the heuristic by at most one: the heuristic is consistent for unit-cost moves. */
  lemma SuccessorHeuristic(v: Grid, w: Grid)
    requires WellFormed(v) && w in Successors(v)
    ensures WellFormed(w) && Manhattan(v) <= Manhattan(w) + 1
  {
    var z := FirstZero(v).value;
    TargetsAdjacent(z);
    var i :| 0 <= i < |Successors(v)| && Successors(v)[i] == w;
    var t := Targets(z)[i];
    FirstZeroIsBlank(v);
    SwapBlankHeuristic(v, z, t);
  }

  /** A step from v to w lowers the heuristic by at most one. */
  ghost predicate DropsAtMostOne(v: Grid, w: Grid) {
    WellFormed(v) && WellFormed(w) && Manhattan(v) <= Manhattan(w) + 1
  }

  /** Along every step that next lists from a well-formed board, the heuristic drops by at most one. */
  ghost predicate DropsByAtMostOne(next: Grid -> seq<Grid>) {
    forall v, w {:trigger DropsAtMostOne(v, w)} :: WellFormed(v) && w in next(v) ==> DropsAtMostOne(v, w)
  }

  lemma SuccessorsDropByAtMostOne()
    ensures DropsByAtMostOne(Successors)
  {
    forall v, w | WellFormed(v) && w in Successors(v) ensures DropsAtMostOne(v, w) {
      SuccessorHeuristic(v, w);
    }
  }

  /** For any move relation along which the heuristic drops by at most one, it never exceeds the length of a path to the goal. */
  lemma {:induction false} AdmissibleVia(next: Grid -> seq<Grid>, b: Grid, n: nat)
    requires DropsByAtMostOne(next) && WellFormed(b) && ReachableVia(next, b, GoalBoard, n)
    ensures Manhattan(b) <= n
    decreases n
  {
    if n == 0 {
      ManhattanOfGoal();
    } else {
      var w := StepToGoal(next, b, n);
      AdmissibleVia(next, w, n - 1);
    }
  }

  /** The first step of an n-move path to the goal, along which the heuristic drops by at most one. */
  lemma StepToGoal(next: Grid -> seq<Grid>, b: Grid, n: nat) returns (w: Grid)
    requires DropsByAtMostOne(next) && WellFormed(b) && n > 0 && ReachableVia(next, b, GoalBoard, n)
    ensures w in next(b) && ReachableVia(next, w, GoalBoard, n - 1)
    ensures WellFormed(w) && Manhattan(b) <= Manhattan(w) + 1
  {
    w :| w in next(b) && ReachableVia(next, w, GoalBoard, n - 1);
    assert DropsAtMostOne(b, w);
  }

  /** The heuristic never exceeds the number of moves of any path to the goal. */
  lemma ManhattanAdmissible(b: Grid, n: nat)
    requires WellFormed(b) && ReachableIn(b, GoalBoard, n)
    ensures Manhattan(b) <= n
  {
    SuccessorsDropByAtMostOne();
    AdmissibleVia(Successors, b, n);
  }
}
