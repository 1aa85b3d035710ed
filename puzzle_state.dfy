/**
 * A node of the search: a board together with the number of moves that led
 * to it, the node it was reached from, where its blank is and its A*
 * priority. The program builds a node once and never changes it afterwards,
 * so a node is a value here; a child gets its own copy of the board.
 */
module PuzzleState {
  import opened Wrappers
  import opened Board
  import opened BoardFacts

  datatype State = State(board: Grid, move: int, previous: Option<State>, zeroPos: Option<Pos>, priority: int)

  /** What the constructor derives from the board and the move count. */
  predicate WellBuilt(s: State) {
    WellFormed(s.board) && s.zeroPos == FirstZero(s.board) && s.priority == s.move + Manhattan(s.board)
  }

  // ---------------------------------------------------------------------------
  // Building a node

  /** Scans the cells row by row and stops at the first blank. */
  method FindZero(b: Grid) returns (r: Option<Pos>)
    requires IsGrid(b)
    ensures r == FirstZero(b)
    ensures r.Some? ==> InBounds(r.value) && Cell(b, r.value) == 0
    ensures r.None? <==> forall k :: 0 <= k < 9 ==> At(b, k) != 0
  {
    for i := 0 to 3
      invariant forall k :: 0 <= k < 3 * i ==> At(b, k) != 0
    {
      for j := 0 to 3
        invariant forall k :: 0 <= k < 3 * i + j ==> At(b, k) != 0
      {
        CellAt(b, Pos(i, j));
        if b[i][j] == 0 {
          FirstZeroAt(b, 3 * i + j);
          return Some(Pos(i, j));
        }
      }
    }
    return None;
  }

  /** Sums, over the nonzero cells, the row and column distance to the cell the goal table gives. */
  method Heuristic(b: Grid) returns (distance: nat)
    requires WellFormed(b)
    ensures distance == Manhattan(b)
  {
    distance := 0;
    for i := 0 to 3
      invariant distance + DistanceFrom(b, 3 * i) == Manhattan(b)
    {
      var rowDistance := RowDistance(b, i);
      distance := distance + rowDistance;
    }
  }

  /** The inner loop of the heuristic: the distances of the tiles in row i. */
  method RowDistance(b: Grid, i: int) returns (distance: nat)
    requires WellFormed(b) && 0 <= i < 3
    ensures distance + DistanceFrom(b, 3 * i + 3) == DistanceFrom(b, 3 * i)
  {
    RowLength(b, i);
    distance := 0;
    for j := 0 to 3
      invariant distance + DistanceFrom(b, 3 * i + j) == DistanceFrom(b, 3 * i)
    {
      DistanceAtCell(b, Pos(i, j));
      var value := b[i][j];
      if value != 0 {
        var goal := GoalPos(value);
        assert TileDistance(value, Pos(i, j)) == Abs(i - goal.row) + Abs(j - goal.col);
        distance := distance + Abs(i - goal.row) + Abs(j - goal.col);
      }
    }
  }

  /** The heuristic from cell p on: the distance of the tile at p, then the rest. */
  lemma DistanceAtCell(b: Grid, p: Pos)
    requires WellFormed(b) && InBounds(p)
    ensures 0 <= Index(p) < 9 && 0 <= b[p.row][p.col] <= 8
    ensures DistanceFrom(b, Index(p)) == TileDistance(b[p.row][p.col], p) + DistanceFrom(b, Index(p) + 1)
  {
    CellAt(b, p);
    IndexPosOf(p);
  }

  /** The node the constructor builds from a board, a move count and a parent. */
  function Build(board: Grid, move: int, previous: Option<State>): (s: State)
    requires WellFormed(board)
    ensures WellBuilt(s)
  {
    State(board, move, previous, FirstZero(board), move + Manhattan(board))
  }

  /** The constructor: keeps its arguments, finds the blank and scores the board. */
  method NewState(board: Grid, move: int, previous: Option<State>) returns (s: State)
    requires WellFormed(board)
    ensures s.board == board && s.move == move && s.previous == previous
    ensures s.zeroPos == FirstZero(board) && s.priority == move + Manhattan(board)
    ensures s == Build(board, move, previous)
  {
    var zeroPos := FindZero(board);
    var h := Heuristic(board);
    s := State(board, move, previous, zeroPos, move + h);
  }

  /** The node the search starts from: no moves made and no parent. */
  function Start(board: Grid): (s: State)
    requires WellFormed(board)
    ensures WellBuilt(s) && s.move == 0 && s.previous.None? && s.board == board
  {
    Build(board, 0, None)
  }

  // ---------------------------------------------------------------------------
  // Neighbours

  /** The child reached by moving the blank of s onto the cell t. */
  function Child(s: State, t: Pos): (c: State)
    requires WellBuilt(s) && s.zeroPos.Some? && InBounds(t)
    ensures WellBuilt(c) && SamePerm(c.board, s.board)
  {
    var z := s.zeroPos.value;
    SwapPermutes(s.board, z, t);
    SamePermWellFormed(Swap(s.board, z, t), s.board);
    Build(Swap(s.board, z, t), s.move + 1, Some(s))
  }

  /** The children for the first n directions tried, in order. */
  function NeighborsUpTo(s: State, n: nat): seq<State>
    requires WellBuilt(s) && s.zeroPos.Some? && n <= 4
  {
    if n == 0 then []
    else
      var t := Shift(s.zeroPos.value, Dir(n - 1));
      NeighborsUpTo(s, n - 1) + if InBounds(t) then [Child(s, t)] else []
  }

  /** The nodes one move away, in the order up, down, left, right. */
  function Neighbors(s: State): seq<State>
    requires WellBuilt(s) && s.zeroPos.Some?
  {
    NeighborsUpTo(s, 4)
  }

  /**
   * Tries the four directions in turn; for each that stays on the board it
   * copies the board, exchanges the blank with that cell and builds the child
   * with one more move and this node as parent.
   */
  method GenerateNeighbors(s: State) returns (neighbors: seq<State>)
    requires WellBuilt(s) && s.zeroPos.Some?
    ensures neighbors == Neighbors(s)
  {
    neighbors := [];
    var z := s.zeroPos.value;
    var x, y := z.row, z.col;
    for d := 0 to 4
      invariant neighbors == NeighborsUpTo(s, d)
    {
      var dir := Dir(d);
      var nx, ny := x + dir.row, y + dir.col;
      NeighborsStep(s, d);
      if 0 <= nx < 3 && 0 <= ny < 3 {
        var neighbor := MakeChild(s, Pos(nx, ny));
        neighbors := neighbors + [neighbor];
      }
    }
  }

  /** One more direction adds its child exactly when the target cell is on the board. */
  lemma NeighborsStep(s: State, d: nat)
    requires WellBuilt(s) && s.zeroPos.Some? && d < 4
    ensures var t := Shift(s.zeroPos.value, Dir(d));
      NeighborsUpTo(s, d + 1) == NeighborsUpTo(s, d) + if InBounds(t) then [Child(s, t)] else []
  {
  }

  /** Copies the board, moves the blank onto t in the copy and builds the child node. */
  method MakeChild(s: State, t: Pos) returns (c: State)
    requires WellBuilt(s) && s.zeroPos.Some? && InBounds(t)
    ensures c == Child(s, t)
  {
    var newBoard := CopySwap(s.board, s.zeroPos.value, t);
    c := NewState(newBoard, s.move + 1, Some(s));
  }

  /** Copies the rows of b and exchanges the cells z and t in the copy. */
  method CopySwap(b: Grid, z: Pos, t: Pos) returns (c: Grid)
    requires WellFormed(b) && InBounds(z) && InBounds(t)
    ensures c == Swap(b, z, t) && WellFormed(c) && SamePerm(c, b)
  {
    var x, y, nx, ny := z.row, z.col, t.row, t.col;
    var zv, tv := Cell(b, z), Cell(b, t);
    c := b;
    c := c[x := c[x][y := tv]];
    c := c[nx := c[nx][ny := zv]];
    SwapPermutes(b, z, t);
    SamePermWellFormed(c, b);
  }

  // ---------------------------------------------------------------------------
  // What the neighbours are

  /** ns holds, position by position, the children of s for the target cells ts. */
  predicate ChildrenFor(s: State, ns: seq<State>, ts: seq<Pos>)
    requires WellBuilt(s) && s.zeroPos.Some?
  {
    |ns| == |ts| && forall i :: 0 <= i < |ns| ==> InBounds(ts[i]) && ns[i] == Child(s, ts[i])
  }

  lemma ChildrenForSnoc(s: State, ns: seq<State>, ts: seq<Pos>, t: Pos)
    requires WellBuilt(s) && s.zeroPos.Some? && InBounds(t) && ChildrenFor(s, ns, ts)
    ensures ChildrenFor(s, ns + [Child(s, t)], ts + [t])
  {
    var ns', ts' := ns + [Child(s, t)], ts + [t];
    forall i | 0 <= i < |ns'| ensures InBounds(ts'[i]) && ns'[i] == Child(s, ts'[i]) {
      if i < |ns| {
        assert ns'[i] == ns[i] && ts'[i] == ts[i];
      }
    }
  }

  /** The children, direction by direction, are the children for the targets kept so far. */
  lemma {:induction false} NeighborsAreChildren(s: State, n: nat)
    requires WellBuilt(s) && s.zeroPos.Some? && n <= 4
    ensures ChildrenFor(s, NeighborsUpTo(s, n), TargetsUpTo(s.zeroPos.value, n))
  {
    var z := s.zeroPos.value;
    if n > 0 {
      NeighborsAreChildren(s, n - 1);
      NeighborsStep(s, n - 1);
      var a, ta := NeighborsUpTo(s, n - 1), TargetsUpTo(z, n - 1);
      var t := Shift(z, Dir(n - 1));
      assert TargetsUpTo(z, n) == ta + Step(z, n - 1);
      if InBounds(t) {
        assert Step(z, n - 1) == [t];
        ChildrenForSnoc(s, a, ta, t);
      } else {
        assert Step(z, n - 1) == [];
        assert TargetsUpTo(z, n) == ta + [] == ta;
        assert NeighborsUpTo(s, n) == a + [] == a;
      }
    }
  }

  /** The i-th neighbour is the child for the i-th target of the blank. */
  lemma NeighborIsChild(s: State, i: int)
    requires WellBuilt(s) && s.zeroPos.Some? && 0 <= i < |Neighbors(s)|
    ensures |Neighbors(s)| == |Targets(s.zeroPos.value)|
    ensures InBounds(Targets(s.zeroPos.value)[i]) && Adjacent(s.zeroPos.value, Targets(s.zeroPos.value)[i])
    ensures Neighbors(s)[i] == Child(s, Targets(s.zeroPos.value)[i])
  {
    NeighborsAreChildren(s, 4);
    TargetsExactly(s.zeroPos.value, Targets(s.zeroPos.value)[i]);
  }

  /** Two neighbours from a corner, three from an edge, four from the centre. */
  lemma NeighborCount(s: State)
    requires WellBuilt(s) && s.zeroPos.Some?
    ensures IsCorner(s.zeroPos.value) ==> |Neighbors(s)| == 2
    ensures IsEdge(s.zeroPos.value) ==> |Neighbors(s)| == 3
    ensures IsCentre(s.zeroPos.value) ==> |Neighbors(s)| == 4
    ensures 2 <= |Neighbors(s)| <= 4
  {
    NeighborsAreChildren(s, 4);
    TargetsCount(s.zeroPos.value);
  }

  /**
   * Each neighbour has one more move, has s as its parent, and holds the board
   * of s with the blank exchanged with an adjacent cell; the tiles are the same.
   */
  lemma NeighborShape(s: State, i: int)
    requires WellBuilt(s) && s.zeroPos.Some? && 0 <= i < |Neighbors(s)|
    ensures |Neighbors(s)| == |Targets(s.zeroPos.value)|
    ensures var z, n := s.zeroPos.value, Neighbors(s)[i];
      && WellBuilt(n) && n.move == s.move + 1 && n.previous == Some(s)
      && InBounds(Targets(z)[i]) && Adjacent(z, Targets(z)[i])
      && n.board == Swap(s.board, z, Targets(z)[i])
      && Cell(n.board, Targets(z)[i]) == 0
      && SamePerm(n.board, s.board)
  {
    NeighborIsChild(s, i);
    FirstZeroIsBlank(s.board);
  }

  /**
   * A move changes the heuristic by at most one, so a neighbour's priority is
   * never below its parent's; on a board without repeated values it changes by
   * exactly one, so the priority stays or grows by two.
   */
  lemma NeighborPriority(s: State, i: int)
    requires WellBuilt(s) && s.zeroPos.Some? && 0 <= i < |Neighbors(s)|
    ensures WellBuilt(Neighbors(s)[i])
    ensures Neighbors(s)[i].priority >= s.priority
    ensures Distinct(s.board) ==>
      && Abs(Manhattan(Neighbors(s)[i].board) - Manhattan(s.board)) == 1
      && (Neighbors(s)[i].priority == s.priority || Neighbors(s)[i].priority == s.priority + 2)
  {
    NeighborShape(s, i);
    var z := s.zeroPos.value;
    var t := Targets(z)[i];
    FirstZeroIsBlank(s.board);
    SwapBlankHeuristic(s.board, z, t);
    if Distinct(s.board) {
      CellAt(s.board, z);
      CellAt(s.board, t);
      IndexPosOf(z);
      IndexPosOf(t);
      assert Index(z) != Index(t);
      assert Cell(s.board, t) != 0;
    }
  }

  /** The neighbours' boards are the successor boards, in the same order. */
  lemma NeighborBoardsAreSuccessors(s: State)
    requires WellBuilt(s) && s.zeroPos.Some?
    ensures |Neighbors(s)| == |Successors(s.board)|
    ensures forall i :: 0 <= i < |Neighbors(s)| ==> Neighbors(s)[i].board == Successors(s.board)[i]
  {
    NeighborsAreChildren(s, 4);
    TargetsAdjacent(s.zeroPos.value);
    forall i | 0 <= i < |Neighbors(s)| ensures Neighbors(s)[i].board == Successors(s.board)[i] {
      NeighborShape(s, i);
    }
  }

  // ---------------------------------------------------------------------------
  // Ordering

  /** The heap's comparison `__lt__`: by priority alone. */
  predicate Less(a: State, b: State) {
    a.priority < b.priority
  }
}
