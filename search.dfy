/**
 * The A* search: a frontier of nodes ordered by priority, from which the
 * node of least priority is taken each round; a set of boards already
 * expanded; the first goal node taken out is the answer.
 */
module Search {
  import opened Wrappers
  import opened Board
  import opened BoardFacts
  import opened PuzzleState

  // ---------------------------------------------------------------------------
  // Chains of parents

  /**
   * s descends from a root with no moves made: every parent link adds one move
   * and goes from a board to one of its successor boards.
   */
  predicate Linked(s: State)
    decreases s
  {
    WellBuilt(s) &&
    match s.previous
    case None => s.move == 0
    case Some(p) => Linked(p) && s.move == p.move + 1 && s.board in Successors(p.board)
  }

  /** The board at the root of the chain of parents. */
  function Origin(s: State): Grid
    decreases s
  {
    match s.previous
    case None => s.board
    case Some(p) => Origin(p)
  }

  lemma {:induction false} ReachableViaSnoc(next: Grid -> seq<Grid>, a: Grid, b: Grid, c: Grid, n: nat)
    requires ReachableVia(next, a, b, n) && c in next(b)
    ensures ReachableVia(next, a, c, n + 1)
    decreases n
  {
    if n == 0 {
      assert c in next(a) && ReachableVia(next, c, c, 0);
    } else {
      var w :| w in next(a) && ReachableVia(next, w, b, n - 1);
      ReachableViaSnoc(next, w, b, c, n - 1);
      assert w in next(a) && ReachableVia(next, w, c, n);
    }
  }

  /** Appending one move to a path of n moves gives a path of n + 1 moves. */
  lemma ReachableSnoc(a: Grid, b: Grid, c: Grid, n: nat)
    requires ReachableIn(a, b, n) && c in Successors(b)
    ensures ReachableIn(a, c, n + 1)
  {
    ReachableViaSnoc(Successors, a, b, c, n);
  }

  /** A successor board holds the same tiles. */
  lemma SuccessorPermutes(b: Grid, w: Grid)
    requires w in Successors(b)
    ensures SamePerm(w, b)
  {
    var z := FirstZero(b).value;
    TargetsAdjacent(z);
    var i :| 0 <= i < |Successors(b)| && Successors(b)[i] == w;
    SwapPermutes(b, z, Targets(z)[i]);
  }

  /** A linked node's move count is the length of a path from its root board to its board. */
  lemma {:induction false} LinkedReaches(s: State)
    requires Linked(s)
    ensures s.move >= 0 && ReachableIn(Origin(s), s.board, s.move)
    ensures SamePerm(s.board, Origin(s))
    decreases s
  {
    match s.previous
    case None =>
      assert ReachableVia(Successors, s.board, s.board, 0);
    case Some(p) =>
      LinkedReaches(p);
      ReachableSnoc(Origin(p), p.board, s.board, p.move);
      SuccessorPermutes(p.board, s.board);
      SamePermTransitive(s.board, p.board, Origin(p));
  }

  /** Every neighbour of a linked node is linked, with the same root. */
  lemma NeighborLinked(s: State, i: int)
    requires Linked(s) && s.zeroPos.Some? && 0 <= i < |Neighbors(s)|
    ensures Linked(Neighbors(s)[i]) && Origin(Neighbors(s)[i]) == Origin(s)
  {
    NeighborShape(s, i);
    NeighborBoardsAreSuccessors(s);
    assert Successors(s.board)[i] in Successors(s.board);
  }

  // ---------------------------------------------------------------------------
  // The frontier

  /** The boards waiting in the frontier. */
  function Boards(frontier: seq<State>): set<Grid> {
    set s | s in frontier :: s.board
  }

  /** The position of an entry of least priority: no entry of the frontier is less than it. */
  function LeastAt(f: seq<State>): (i: nat)
    requires |f| > 0
    ensures i < |f| && forall j :: 0 <= j < |f| ==> f[i].priority <= f[j].priority
  {
    if |f| == 1 then 0
    else
      var k := LeastAt(f[..|f| - 1]);
      if f[k].priority <= f[|f| - 1].priority then k else |f| - 1
  }

  /**
   * Takes out an entry that no other entry is less than, as the heap does;
   * which of several such entries comes out is left open.
   */
  method Pop(frontier: seq<State>) returns (current: State, rest: seq<State>)
    requires |frontier| > 0
    ensures current in frontier
    ensures forall s :: s in frontier ==> !Less(s, current)
    ensures exists i :: 0 <= i < |frontier| && frontier[i] == current && rest == frontier[..i] + frontier[i + 1..]
  {
    var i := LeastAt(frontier);
    current := frontier[i];
    rest := frontier[..i] + frontier[i + 1..];
  }

  /** What removing entry i leaves: every other entry, and no new one. */
  lemma RemoveAt(f: seq<State>, i: int)
    requires 0 <= i < |f|
    ensures forall s :: s in f[..i] + f[i + 1..] ==> s in f
    ensures forall s :: s in f ==> s == f[i] || s in f[..i] + f[i + 1..]
    ensures Boards(f) == Boards(f[..i] + f[i + 1..]) + {f[i].board}
  {
    assert f == f[..i] + [f[i]] + f[i + 1..];
  }

  /** The nodes of ns whose board is not in visited, in order. */
  function Unvisited(ns: seq<State>, visited: set<Grid>): seq<State> {
    if ns == [] then []
    else
      var last := ns[|ns| - 1];
      Unvisited(ns[..|ns| - 1], visited) + if last.board in visited then [] else [last]
  }

  /** Exactly the nodes of ns with an unvisited board are kept. */
  lemma {:induction false} UnvisitedMembers(ns: seq<State>, visited: set<Grid>)
    ensures forall s :: s in Unvisited(ns, visited) <==> s in ns && s.board !in visited
  {
    if ns != [] {
      var init, last := ns[..|ns| - 1], ns[|ns| - 1];
      UnvisitedMembers(init, visited);
      assert ns == init + [last];
    }
  }

  lemma UnvisitedSnoc(ns: seq<State>, k: int, visited: set<Grid>)
    requires 0 <= k < |ns|
    ensures Unvisited(ns[..k + 1], visited)
         == Unvisited(ns[..k], visited) + if ns[k].board in visited then [] else [ns[k]]
  {
    assert ns[..k + 1][..k] == ns[..k];
  }

  /**
   * Marks the board of current as expanded, generates its neighbours and
   * pushes each whose board has not been expanded.
   */
  method Expand(current: State, frontier: seq<State>, visited: set<Grid>)
    returns (frontier': seq<State>, visited': set<Grid>)
    requires WellBuilt(current) && current.zeroPos.Some?
    ensures visited' == visited + {current.board}
    ensures frontier' == frontier + Unvisited(Neighbors(current), visited')
  {
    visited' := visited + {current.board};
    var neighbors := GenerateNeighbors(current);
    frontier' := PushUnvisited(frontier, neighbors, visited');
  }

  /** Pushes, in order, each node of neighbors whose board is not in visited. */
  method PushUnvisited(frontier: seq<State>, neighbors: seq<State>, visited: set<Grid>)
    returns (frontier': seq<State>)
    ensures frontier' == frontier + Unvisited(neighbors, visited)
  {
    frontier' := frontier;
    for k := 0 to |neighbors|
      invariant frontier' == frontier + Unvisited(neighbors[..k], visited)
    {
      UnvisitedSnoc(neighbors, k, visited);
      ghost var kept := Unvisited(neighbors[..k], visited);
      if neighbors[k].board !in visited {
        assert frontier + kept + [neighbors[k]] == frontier + (kept + [neighbors[k]]);
        frontier' := frontier' + [neighbors[k]];
      } else {
        assert kept + [] == kept;
      }
    }
    assert neighbors[..|neighbors|] == neighbors;
  }

  // ---------------------------------------------------------------------------
  // Termination: finitely many boards, and entries whose board was expanded

  ghost const Digits: set<int> := set d | 0 <= d <= 8
  ghost const AllRows: set<seq<int>> := set a, b, c | a in Digits && b in Digits && c in Digits :: [a, b, c]
  /** Every board the heuristic can score: finitely many. */
  ghost const AllGrids: set<Grid> := set r, s, t | r in AllRows && s in AllRows && t in AllRows :: [r, s, t]

  lemma RowInAllRows(r: seq<int>)
    requires |r| == 3 && 0 <= r[0] <= 8 && 0 <= r[1] <= 8 && 0 <= r[2] <= 8
    ensures r in AllRows
  {
    assert r[0] in Digits && r[1] in Digits && r[2] in Digits;
    assert r == [r[0], r[1], r[2]];
  }

  lemma WellFormedInAllGrids(b: Grid)
    requires WellFormed(b)
    ensures b in AllGrids
  {
    forall i, j | 0 <= i < 3 && 0 <= j < 3 ensures 0 <= b[i][j] <= 8 {
      CellAt(b, Pos(i, j));
    }
    RowInAllRows(b[0]);
    RowInAllRows(b[1]);
    RowInAllRows(b[2]);
    assert b == [b[0], b[1], b[2]];
  }

  /** How many frontier entries hold a board that has already been expanded. */
  function DeadCount(f: seq<State>, visited: set<Grid>): nat {
    if f == [] then 0
    else DeadCount(f[..|f| - 1], visited) + if f[|f| - 1].board in visited then 1 else 0
  }

  lemma {:induction false} DeadCountAppend(a: seq<State>, b: seq<State>, visited: set<Grid>)
    ensures DeadCount(a + b, visited) == DeadCount(a, visited) + DeadCount(b, visited)
    decreases |b|
  {
    if b != [] {
      var init := b[..|b| - 1];
      DeadCountAppend(a, init, visited);
      assert (a + b)[..|a + b| - 1] == a + init;
      assert (a + b)[|a + b| - 1] == b[|b| - 1];
    } else {
      assert a + b == a;
    }
  }

  lemma {:induction false} UnvisitedNotDead(ns: seq<State>, visited: set<Grid>)
    ensures DeadCount(Unvisited(ns, visited), visited) == 0
  {
    if ns != [] {
      var init, last := ns[..|ns| - 1], ns[|ns| - 1];
      UnvisitedNotDead(init, visited);
      DeadCountAppend(Unvisited(init, visited), if last.board in visited then [] else [last], visited);
    }
  }

  /** Taking out the entry at i takes out one dead entry when its board was expanded. */
  lemma RemoveDead(f: seq<State>, i: int, visited: set<Grid>)
    requires 0 <= i < |f|
    ensures DeadCount(f[..i] + f[i + 1..], visited) + (if f[i].board in visited then 1 else 0) == DeadCount(f, visited)
  {
    var before, after := f[..i], f[i + 1..];
    assert f == before + [f[i]] + after;
    DeadCountAppend(before + [f[i]], after, visited);
    DeadCountAppend(before, [f[i]], visited);
    DeadCountAppend(before, after, visited);
    assert [f[i]][..0] == [];
  }

  lemma ShrinkDifference<T>(all: set<T>, visited: set<T>, x: T)
    requires x in all && x !in visited
    ensures |all - (visited + {x})| < |all - visited|
  {
    assert all - (visited + {x}) == (all - visited) - {x};
  }

  /** Expanding a board either expands a new board or takes one dead entry out. */
  lemma ExpandProgress(frontier: seq<State>, visited: set<Grid>, i: int, pushed: seq<State>, frontier': seq<State>, visited': set<Grid>)
    requires 0 <= i < |frontier| && WellFormed(frontier[i].board)
    requires visited' == visited + {frontier[i].board}
    requires frontier' == frontier[..i] + frontier[i + 1..] + pushed && DeadCount(pushed, visited') == 0
    ensures |AllGrids - visited'| < |AllGrids - visited|
         || (visited' == visited && DeadCount(frontier', visited') < DeadCount(frontier, visited))
  {
    var b := frontier[i].board;
    if b in visited {
      assert visited' == visited;
      RemoveDead(frontier, i, visited);
      DeadCountAppend(frontier[..i] + frontier[i + 1..], pushed, visited);
    } else {
      WellFormedInAllGrids(b);
      ShrinkDifference(AllGrids, visited, b);
    }
  }

  // ---------------------------------------------------------------------------
  // The search invariant

  /** Every board that next lists for an expanded board is expanded or waiting. */
  ghost predicate ClosedUnder(next: Grid -> seq<Grid>, visited: set<Grid>, waiting: set<Grid>) {
    forall v, w :: v in visited && w in next(v) ==> w in visited || w in waiting
  }

  /**
   * What holds at the top of every round: every waiting node descends from the
   * start node, no expanded board is the goal, every successor of an expanded
   * board is expanded or waiting, and the initial board is one or the other.
   */
  ghost predicate SearchInv(initial: Grid, frontier: seq<State>, visited: set<Grid>) {
    && (forall s :: s in frontier ==> Linked(s) && Origin(s) == initial)
    && (forall v :: v in visited ==> !IsGoal(v))
    && ClosedUnder(Successors, visited, Boards(frontier))
    && (initial in visited || initial in Boards(frontier))
  }

  lemma BoardsAppend(a: seq<State>, b: seq<State>)
    ensures Boards(a + b) == Boards(a) + Boards(b)
  {
  }

  /** Expanding cur keeps the closure when every successor of cur ends up expanded or pushed. */
  lemma ClosedAfterExpand(next: Grid -> seq<Grid>, visited: set<Grid>, waiting: set<Grid>, cur: Grid, pushed: set<Grid>, waiting': set<Grid>)
    requires ClosedUnder(next, visited, waiting)
    requires waiting <= waiting' + {cur} && pushed <= waiting'
    requires forall w :: w in next(cur) ==> w in visited + {cur} || w in pushed
    ensures ClosedUnder(next, visited + {cur}, waiting')
  {
  }

  /** Each successor of the expanded board is expanded or among the pushed nodes. */
  lemma SuccessorsCovered(cur: State, visited: set<Grid>)
    requires WellBuilt(cur) && cur.zeroPos.Some? && cur.board in visited
    ensures forall w :: w in Successors(cur.board) ==> w in visited || w in Boards(Unvisited(Neighbors(cur), visited))
  {
    NeighborBoardsAreSuccessors(cur);
    UnvisitedMembers(Neighbors(cur), visited);
    forall w | w in Successors(cur.board) && w !in visited
      ensures w in Boards(Unvisited(Neighbors(cur), visited))
    {
      var k :| 0 <= k < |Successors(cur.board)| && Successors(cur.board)[k] == w;
      assert Neighbors(cur)[k] in Neighbors(cur);
    }
  }

  /** Nodes pushed by an expansion descend from the start node too. */
  lemma PushedLinked(cur: State, visited: set<Grid>)
    requires Linked(cur) && cur.zeroPos.Some?
    ensures forall s :: s in Unvisited(Neighbors(cur), visited) ==> Linked(s) && Origin(s) == Origin(cur)
  {
    UnvisitedMembers(Neighbors(cur), visited);
    forall s | s in Unvisited(Neighbors(cur), visited) ensures Linked(s) && Origin(s) == Origin(cur) {
      var k :| 0 <= k < |Neighbors(cur)| && Neighbors(cur)[k] == s;
      NeighborLinked(cur, k);
    }
  }

  /** One round that does not find the goal keeps the invariant. */
  lemma ExpandKeepsInv(initial: Grid, frontier: seq<State>, visited: set<Grid>, i: int, frontier': seq<State>, visited': set<Grid>)
    requires SearchInv(initial, frontier, visited)
    requires 0 <= i < |frontier| && !IsGoal(frontier[i].board)
    requires WellBuilt(frontier[i]) && frontier[i].zeroPos.Some?
    requires visited' == visited + {frontier[i].board}
    requires frontier' == frontier[..i] + frontier[i + 1..] + Unvisited(Neighbors(frontier[i]), visited')
    ensures SearchInv(initial, frontier', visited')
  {
    var cur, rest := frontier[i], frontier[..i] + frontier[i + 1..];
    var pushed := Unvisited(Neighbors(cur), visited');
    RemoveAt(frontier, i);
    BoardsAppend(rest, pushed);
    PushedLinked(cur, visited');
    SuccessorsCovered(cur, visited');
    ClosedAfterExpand(Successors, visited, Boards(frontier), cur.board, Boards(pushed), Boards(frontier'));
  }

  /**
   * After a round, no node left in the frontier is less than the node just
   * taken out, so the priorities of the nodes taken out never decrease.
   */
  lemma PoppedPriorityMonotone(frontier: seq<State>, i: int, visited': set<Grid>)
    requires 0 <= i < |frontier| && WellBuilt(frontier[i]) && frontier[i].zeroPos.Some?
    requires forall s :: s in frontier ==> !Less(s, frontier[i])
    ensures forall s :: s in frontier[..i] + frontier[i + 1..] + Unvisited(Neighbors(frontier[i]), visited') ==> !Less(s, frontier[i])
  {
    var cur, rest := frontier[i], frontier[..i] + frontier[i + 1..];
    var pushed := Unvisited(Neighbors(cur), visited');
    RemoveAt(frontier, i);
    UnvisitedMembers(Neighbors(cur), visited');
    forall s | s in rest + pushed ensures !Less(s, cur) {
      if s !in rest {
        var k :| 0 <= k < |Neighbors(cur)| && Neighbors(cur)[k] == s;
        NeighborPriority(cur, k);
      }
    }
  }

  /** With nothing waiting, the expanded boards are closed under moves and hold every reachable board. */
  lemma {:induction false} ClosedHoldsReachable(next: Grid -> seq<Grid>, visited: set<Grid>, v: Grid, w: Grid, n: nat)
    requires ClosedUnder(next, visited, {}) && v in visited && ReachableVia(next, v, w, n)
    ensures w in visited
    decreases n
  {
    if n > 0 {
      var u :| u in next(v) && ReachableVia(next, u, w, n - 1);
      ClosedHoldsReachable(next, visited, u, w, n - 1);
    }
  }

  /** The invariant holds for the frontier holding only the start node. */
  lemma StartInv(initial: Grid, start: State)
    requires WellBuilt(start) && start.board == initial && start.move == 0 && start.previous.None?
    ensures SearchInv(initial, [start], {})
  {
    assert Boards([start]) == {initial};
  }

  /** Once nothing waits, a goal never expanded cannot be reached at all. */
  lemma ExhaustedUnreachable(initial: Grid, visited: set<Grid>)
    requires SearchInv(initial, [], visited)
    ensures forall n: nat :: !ReachableIn(initial, GoalBoard, n)
  {
    assert Boards([]) == {};
    forall n: nat ensures !ReachableIn(initial, GoalBoard, n) {
      if ReachableIn(initial, GoalBoard, n) {
        ClosedHoldsReachable(Successors, visited, initial, GoalBoard, n);
      }
    }
  }

  /**
   * Every node waiting in the frontier holds the initial tiles rearranged, and
   * its move count is the length of a path from the initial board to it.
   */
  lemma FrontierFromInitial(initial: Grid, frontier: seq<State>, visited: set<Grid>)
    requires SearchInv(initial, frontier, visited)
    ensures forall s :: s in frontier ==> SamePerm(s.board, initial) && s.move >= 0 && ReachableIn(initial, s.board, s.move)
  {
    forall s | s in frontier ensures SamePerm(s.board, initial) && s.move >= 0 && ReachableIn(initial, s.board, s.move) {
      LinkedReaches(s);
    }
  }

  // ---------------------------------------------------------------------------
  // The search

  /**
   * A* from the initial board: takes out a node of least priority, answers it
   * when its board is the goal, and otherwise marks its board expanded and
   * pushes its neighbours with unexpanded boards. A node taken out is not
   * checked against the expanded boards. No answer once the frontier runs dry.
   */
  method AStar(initial: Grid) returns (result: Option<State>)
    requires WellFormed(initial) && HasBlank(initial)
    ensures result.Some? ==> IsGoal(result.value.board) && Linked(result.value) && Origin(result.value) == initial
    ensures result.Some? ==> result.value.move >= 0 && ReachableIn(initial, GoalBoard, result.value.move)
    ensures result.Some? ==> SamePerm(GoalBoard, initial) && Manhattan(initial) <= result.value.move
    ensures result.None? ==> forall n: nat :: !ReachableIn(initial, GoalBoard, n)
  {
    var start := NewState(initial, 0, None);
    var frontier := [start];
    var visited: set<Grid> := {};
    StartInv(initial, start);
    while frontier != []
      invariant SearchInv(initial, frontier, visited)
      decreases |AllGrids - visited|, DeadCount(frontier, visited)
    {
      var current, rest := Pop(frontier);
      ghost var i :| 0 <= i < |frontier| && frontier[i] == current && rest == frontier[..i] + frontier[i + 1..];
      LinkedReaches(current);
      if IsGoal(current.board) {
        ManhattanAdmissible(initial, current.move);
        return Some(current);
      }
      SamePermWellFormed(current.board, initial);
      ghost var frontier0, visited0 := frontier, visited;
      frontier, visited := Expand(current, rest, visited);
      ExpandKeepsInv(initial, frontier0, visited0, i, frontier, visited);
      UnvisitedNotDead(Neighbors(current), visited);
      ExpandProgress(frontier0, visited0, i, Unvisited(Neighbors(current), visited), frontier, visited);
    }
    ExhaustedUnreachable(initial, visited);
    return None;
  }
}
