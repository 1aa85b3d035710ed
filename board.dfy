/**
 * The 3x3 board of the 8-puzzle and the pure facts about it: where the blank
 * is, the Manhattan-distance heuristic against the fixed goal table, the goal
 * test, the blank's legal moves and the board a move produces.
 */
module Board {
  import opened Wrappers

  /** A board as the program holds it: three rows of three cells, 0 is the blank. */
  type Grid = seq<seq<int>>

  /** A cell position (row, column). */
  datatype Pos = Pos(row: int, col: int)

  function Abs(x: int): nat { if x < 0 then -x else x }

  predicate IsGrid(b: Grid) {
    |b| == 3 && |b[0]| == 3 && |b[1]| == 3 && |b[2]| == 3
  }

  lemma RowLength(b: Grid, i: int)
    requires IsGrid(b) && 0 <= i < 3
    ensures |b[i]| == 3
  {
  }

  predicate InBounds(p: Pos) {
    0 <= p.row < 3 && 0 <= p.col < 3
  }

  function Cell(b: Grid, p: Pos): int
    requires IsGrid(b) && InBounds(p)
  {
    b[p.row][p.col]
  }

  /** Row-major index of a cell. */
  function Index(p: Pos): int { 3 * p.row + p.col }

  function PosOf(k: int): (p: Pos)
    requires 0 <= k < 9
    ensures InBounds(p)
  {
    if k < 3 then Pos(0, k) else if k < 6 then Pos(1, k - 3) else Pos(2, k - 6)
  }

  /** The cells in row-major order, the order in which the program scans them. */
  function Flatten(b: Grid): seq<int>
    requires IsGrid(b)
  {
    b[0] + b[1] + b[2]
  }

  /** The k-th cell in row-major order. */
  function At(b: Grid, k: int): int
    requires IsGrid(b) && 0 <= k < 9
  {
    Flatten(b)[k]
  }

  lemma CellAt(b: Grid, p: Pos)
    requires IsGrid(b) && InBounds(p)
    ensures Cell(b, p) == At(b, Index(p))
  {
  }

  lemma IndexPosOf(p: Pos)
    requires InBounds(p)
    ensures 0 <= Index(p) < 9 && PosOf(Index(p)) == p
  {
  }

  lemma PosOfIndex(k: int)
    requires 0 <= k < 9
    ensures Index(PosOf(k)) == k
  {
  }

  /** A board the heuristic can score: 3x3, every value a key of the goal table. */
  predicate WellFormed(b: Grid) {
    IsGrid(b) && forall k :: 0 <= k < 9 ==> 0 <= At(b, k) <= 8
  }

  /** A board holding each of its nine values once. */
  predicate Distinct(b: Grid)
    requires IsGrid(b)
  {
    forall m, n :: 0 <= m < n < 9 ==> At(b, m) != At(b, n)
  }

  /** Two boards holding the same tiles, in any arrangement. */
  predicate SamePerm(b: Grid, c: Grid) {
    IsGrid(b) && IsGrid(c) && multiset(Flatten(b)) == multiset(Flatten(c))
  }

  // ---------------------------------------------------------------------------
  // The blank

  /** The row-major index of the first blank at or after index k, if any. */
  function ZeroFrom(b: Grid, k: nat): (r: Option<nat>)
    requires IsGrid(b) && k <= 9
    ensures r.Some? ==> k <= r.value < 9 && At(b, r.value) == 0
    ensures r.Some? ==> forall m :: k <= m < r.value ==> At(b, m) != 0
    ensures r.None? <==> forall m :: k <= m < 9 ==> At(b, m) != 0
    decreases 9 - k
  {
    if k == 9 then None
    else if At(b, k) == 0 then Some(k)
    else ZeroFrom(b, k + 1)
  }

  /** Where the program finds the blank: the first 0 in row-major order, None when there is none. */
  function FirstZero(b: Grid): (r: Option<Pos>)
    requires IsGrid(b)
    ensures r.Some? ==> InBounds(r.value)
  {
    match ZeroFrom(b, 0)
    case None => None
    case Some(k) => Some(PosOf(k))
  }

  /** A blank at index k with none before it is the one the scan finds. */
  lemma FirstZeroAt(b: Grid, k: int)
    requires IsGrid(b) && 0 <= k < 9 && At(b, k) == 0
    requires forall m :: 0 <= m < k ==> At(b, m) != 0
    ensures FirstZero(b) == Some(PosOf(k))
  {
    assert ZeroFrom(b, 0) == Some(k);
  }

  lemma FirstZeroIsBlank(b: Grid)
    requires IsGrid(b) && FirstZero(b).Some?
    ensures Cell(b, FirstZero(b).value) == 0
  {
    var k := ZeroFrom(b, 0).value;
    PosOfIndex(k);
    CellAt(b, PosOf(k));
  }

  predicate HasBlank(b: Grid) {
    IsGrid(b) && FirstZero(b).Some?
  }

  lemma BlankInFlatten(b: Grid)
    requires IsGrid(b)
    ensures HasBlank(b) <==> 0 in Flatten(b)
  {
    if HasBlank(b) {
      var k := ZeroFrom(b, 0).value;
      assert Flatten(b)[k] == 0;
    } else {
      forall i | 0 <= i < 9 ensures Flatten(b)[i] != 0 {
        assert At(b, i) != 0;
      }
    }
  }

  // ---------------------------------------------------------------------------
  // The heuristic

  /** The fixed goal table: where each value belongs. */
  function GoalPos(v: int): (p: Pos)
    requires 0 <= v <= 8
    ensures InBounds(p)
  {
    if v == 1 then Pos(0, 0) else if v == 2 then Pos(0, 1) else if v == 3 then Pos(0, 2)
    else if v == 8 then Pos(1, 0) else if v == 0 then Pos(1, 1) else if v == 4 then Pos(1, 2)
    else if v == 7 then Pos(2, 0) else if v == 6 then Pos(2, 1) else Pos(2, 2)
  }

  const GoalBoard: Grid := [[1, 2, 3], [8, 0, 4], [7, 6, 5]]

  predicate IsGoal(b: Grid) {
    b == GoalBoard
  }

  /** What a value at position p adds to the heuristic: nothing for the blank. */
  function TileDistance(v: int, p: Pos): nat
    requires 0 <= v <= 8
  {
    if v == 0 then 0
    else Abs(p.row - GoalPos(v).row) + Abs(p.col - GoalPos(v).col)
  }

  /** The heuristic summed over the cells from row-major index k on. */
  function DistanceFrom(b: Grid, k: nat): nat
    requires WellFormed(b) && k <= 9
    decreases 9 - k
  {
    if k == 9 then 0
    else TileDistance(At(b, k), PosOf(k)) + DistanceFrom(b, k + 1)
  }

  /** Sum of the Manhattan distances of the nonzero tiles to their goal cells. */
  function Manhattan(b: Grid): nat
    requires WellFormed(b)
  {
    DistanceFrom(b, 0)
  }

  // ---------------------------------------------------------------------------
  // Moves

  /** The i-th direction tried for the blank: up, down, left, right. */
  function Dir(i: int): Pos
    requires 0 <= i < 4
  {
    if i == 0 then Pos(-1, 0) else if i == 1 then Pos(1, 0) else if i == 2 then Pos(0, -1) else Pos(0, 1)
  }

  function Shift(p: Pos, d: Pos): Pos {
    Pos(p.row + d.row, p.col + d.col)
  }

  /** q is one step up, down, left or right of p. */
  predicate Adjacent(p: Pos, q: Pos) {
    || (p.col == q.col && (q.row == p.row - 1 || q.row == p.row + 1))
    || (p.row == q.row && (q.col == p.col - 1 || q.col == p.col + 1))
  }

  lemma DirValues()
    ensures Dir(0) == Pos(-1, 0) && Dir(1) == Pos(1, 0) && Dir(2) == Pos(0, -1) && Dir(3) == Pos(0, 1)
  {
  }

  /** The cell the blank at z moves to in direction i, when that cell is on the board. */
  function Step(z: Pos, i: int): seq<Pos>
    requires 0 <= i < 4
  {
    var t := Shift(z, Dir(i));
    if InBounds(t) then [t] else []
  }

  lemma StepLengths(z: Pos)
    requires InBounds(z)
    ensures |Step(z, 0)| == (if z.row > 0 then 1 else 0)
    ensures |Step(z, 1)| == (if z.row < 2 then 1 else 0)
    ensures |Step(z, 2)| == (if z.col > 0 then 1 else 0)
    ensures |Step(z, 3)| == (if z.col < 2 then 1 else 0)
  {
    DirValues();
  }

  /** The in-bounds cells the blank at z can move to, trying the first n directions in order. */
  function TargetsUpTo(z: Pos, n: nat): seq<Pos>
    requires n <= 4
  {
    if n == 0 then [] else TargetsUpTo(z, n - 1) + Step(z, n - 1)
  }

  function Targets(z: Pos): seq<Pos> {
    TargetsUpTo(z, 4)
  }

  lemma TargetsUnfold(z: Pos)
    ensures Targets(z) == Step(z, 0) + Step(z, 1) + Step(z, 2) + Step(z, 3)
  {
    assert TargetsUpTo(z, 1) == Step(z, 0);
    assert TargetsUpTo(z, 2) == Step(z, 0) + Step(z, 1);
    assert TargetsUpTo(z, 3) == Step(z, 0) + Step(z, 1) + Step(z, 2);
  }

  lemma StepMember(z: Pos, i: int, t: Pos)
    requires 0 <= i < 4
    ensures t in Step(z, i) <==> InBounds(t) && t == Shift(z, Dir(i))
  {
  }

  /** The four directions reach exactly the adjacent cells. */
  lemma AdjacentIsShift(z: Pos, t: Pos)
    ensures Adjacent(z, t) <==> t == Shift(z, Dir(0)) || t == Shift(z, Dir(1)) || t == Shift(z, Dir(2)) || t == Shift(z, Dir(3))
  {
    DirValues();
    assert t == Pos(t.row, t.col);
  }

  /** The blank moves exactly to the cells on the board next to it. */
  lemma TargetsExactly(z: Pos, t: Pos)
    ensures t in Targets(z) <==> InBounds(t) && Adjacent(z, t)
  {
    TargetsUnfold(z);
    var a, b, c, d := Step(z, 0), Step(z, 1), Step(z, 2), Step(z, 3);
    assert t in a + b + c + d <==> t in a || t in b || t in c || t in d;
    StepMember(z, 0, t);
    StepMember(z, 1, t);
    StepMember(z, 2, t);
    StepMember(z, 3, t);
    AdjacentIsShift(z, t);
  }

  lemma TargetsAdjacent(z: Pos)
    requires InBounds(z)
    ensures forall i :: 0 <= i < |Targets(z)| ==> InBounds(Targets(z)[i]) && Adjacent(z, Targets(z)[i])
  {
    forall i | 0 <= i < |Targets(z)|
      ensures InBounds(Targets(z)[i]) && Adjacent(z, Targets(z)[i])
    {
      TargetsExactly(z, Targets(z)[i]);
    }
  }

  /** Every cell tried so far that was kept is on the board. */
  lemma {:induction false} TargetsUpToInBounds(z: Pos, n: nat)
    requires n <= 4
    ensures forall i :: 0 <= i < |TargetsUpTo(z, n)| ==> InBounds(TargetsUpTo(z, n)[i])
  {
    if n > 0 {
      TargetsUpToInBounds(z, n - 1);
      var a, b := TargetsUpTo(z, n - 1), Step(z, n - 1);
      assert TargetsUpTo(z, n) == a + b;
      forall i | 0 <= i < |a + b| ensures InBounds((a + b)[i]) {
        if i >= |a| {
          assert (a + b)[i] == b[i - |a|];
        }
      }
    }
  }

  /** The board with the cells p and q exchanged. */
  function Swap(b: Grid, p: Pos, q: Pos): (r: Grid)
    requires IsGrid(b) && InBounds(p) && InBounds(q)
    ensures IsGrid(r)
    ensures Cell(r, p) == Cell(b, q) && Cell(r, q) == Cell(b, p)
    ensures forall c :: InBounds(c) && c != p && c != q ==> Cell(r, c) == Cell(b, c)
  {
    var first := b[p.row := b[p.row][p.col := Cell(b, q)]];
    first[q.row := first[q.row][q.col := Cell(b, p)]]
  }

  /** The boards one move of the blank away, in the order the moves are tried. */
  function Successors(b: Grid): (r: seq<Grid>)
  {
    if HasBlank(b) then
      var z := FirstZero(b).value;
      TargetsAdjacent(z);
      SwapEach(b, z, Targets(z))
    else []
  }

  /** The boards obtained by exchanging z with each of the cells ts, in order. */
  function SwapEach(b: Grid, z: Pos, ts: seq<Pos>): (r: seq<Grid>)
    requires IsGrid(b) && InBounds(z) && forall i :: 0 <= i < |ts| ==> InBounds(ts[i])
    ensures |r| == |ts| && forall i :: 0 <= i < |ts| ==> r[i] == Swap(b, z, ts[i])
  {
    if ts == [] then [] else [Swap(b, z, ts[0])] + SwapEach(b, z, ts[1..])
  }

  /** `to` can be reached from `from` by exactly n steps, each to a board that `next` lists. */
  ghost predicate ReachableVia(next: Grid -> seq<Grid>, from: Grid, to: Grid, n: nat)
    decreases n
  {
    if n == 0 then from == to
    else exists w :: w in next(from) && ReachableVia(next, w, to, n - 1)
  }

  /** `to` can be reached from `from` by exactly n moves of the blank. */
  ghost predicate ReachableIn(from: Grid, to: Grid, n: nat) {
    ReachableVia(Successors, from, to, n)
  }
}
