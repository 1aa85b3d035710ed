# 8-puzzle A* solver, modelled in Dafny

This project models a small A* solver for the 8-puzzle. A board is a 3x3 grid
of the values 0..8, where 0 is the blank. The goal board is

    1 2 3
    8 0 4
    7 6 5

A search node (`PuzzleState.State`) holds:

- its board;
- the number of moves made so far;
- its parent node (`previous`);
- the position of the blank, found by a row-major scan;
- its priority: the move count plus the Manhattan-distance heuristic.

The heuristic reads each tile's goal cell from a fixed table. A node's
neighbours come from moving the blank up, down, left and right, in that order,
whenever the target cell is on the board. Each neighbour gets a copied board
with the blank and the target tile exchanged, one more move, and the node
itself as its parent. Nodes compare by priority alone.

The search works like this:

- The frontier is a priority queue and starts with the start node.
- The visited set holds the boards already expanded.
- Each round takes out a node of least priority. If its board is the goal, the
  search returns that node.
- Otherwise the node's board is added to the visited set, and every neighbour
  whose board is not in that set is pushed.
- A node taken out is never checked against the visited set, so one board may
  be expanded twice.
- When the frontier runs dry, the search has no answer.

The answer is read back by following parent links from the goal node and
reversing the list. The program reports the number of moves as the path's
length minus one.

Modules:

- `Wrappers`: `Option`.
- `Board`: boards, the blank, the heuristic, the goal test, moves, swaps,
  successor boards and reachability. These are all pure.
- `BoardFacts`: lemmas about `Board`.
- `PuzzleState`: the node, its constructor, the blank scan, the heuristic
  loop, neighbour generation and the comparison. The loops are methods, each
  proved against a specification function: the blank scan and the heuristic
  against `Board.FirstZero` and `Board.Manhattan`, neighbour generation
  against `PuzzleState.Neighbors`.
- `Search`: the frontier operations, the search invariant, termination and the
  `AStar` method.
- `SolutionPath`: walking the parent links and the move total.

In the main results:

- Every answer of `AStar` has the goal board.
- Every answer descends, through parent links, from a node with no parent
  whose board is the initial board. Each link is one legal move.
- Every answer's move count is the length of a path of legal moves from the
  initial board to the goal.
- When `AStar` returns no answer, no sequence of legal moves of any length
  leads from the initial board to the goal.
- `AStar` always terminates. There are finitely many well-formed boards, and a
  round that expands no new board removes a stale frontier entry.

## Model

| member | source | states |
|---|---|---|
| PuzzleState.NewState | csc3600lab6.py:4-9 | the constructor keeps board, move count and parent, sets the blank position to the row-major first 0 and the priority to move count plus heuristic |
| PuzzleState.Start | csc3600lab6.py:4-9 | a node built with the default arguments has made no moves, has no parent and is well built |
| PuzzleState.Build | csc3600lab6.py:4-9 | every node the constructor builds satisfies the node invariant (well-formed board, blank position is the first 0, priority is move count plus heuristic) |
| PuzzleState.FindZero | csc3600lab6.py:11-16 | the scan returns the row-major first cell holding 0, that cell is on the board and holds 0, and it returns None exactly when no cell holds 0 |
| Board.FirstZeroAt | csc3600lab6.py:11-16 | a 0 at row-major index k with no 0 before it is the position the scan returns |
| PuzzleState.Heuristic | csc3600lab6.py:18-32 | the nested loop returns a natural number equal to the sum, over the nonzero cells, of the row and column distance to the tile's cell in the goal table |
| PuzzleState.RowDistance | csc3600lab6.py:26-31 | one pass of the inner loop over row i adds exactly the distances of row i's tiles to the running sum |
| BoardFacts.GoalTableMatchesGoalBoard | csc3600lab6.py:20-39 | the heuristic's goal table and the goal board agree: each value's table cell holds that value on the goal board, and each cell of the goal board is its value's table cell |
| BoardFacts.ManhattanOfGoal | csc3600lab6.py:18-32 | the heuristic of the goal board is 0 |
| BoardFacts.ManhattanZeroIffGoal | csc3600lab6.py:18-40 | on a board holding each value once, the heuristic is 0 if and only if the board is the goal board |
| BoardFacts.GoalIffCellwise | csc3600lab6.py:34-40 | a 3x3 board equals the goal board if and only if every cell equals the goal board's cell |
| Board.TargetsExactly | csc3600lab6.py:44-50 | the cells the blank may move to are exactly the on-board cells one row or one column away from it |
| BoardFacts.TargetsCount | csc3600lab6.py:44-50 | the blank has two targets from a corner, three from an edge and four from the centre |
| Board.Swap | csc3600lab6.py:51-52 | exchanging the blank and the target cell gives a 3x3 board where the two cells have traded values and every other cell is unchanged |
| BoardFacts.SwapPermutes | csc3600lab6.py:51-52 | the board after the exchange holds the same multiset of values as before |
| PuzzleState.CopySwap | csc3600lab6.py:51-52 | the copied board with the blank and the target exchanged is that swap of the parent's board, well formed and a rearrangement of it |
| PuzzleState.MakeChild | csc3600lab6.py:51-53 | the node built for one direction is the child for that target: swapped board, one more move, the parent as previous |
| PuzzleState.Child | csc3600lab6.py:51-53 | a child node is well built and holds a rearrangement of its parent's tiles |
| PuzzleState.GenerateNeighbors | csc3600lab6.py:42-56 | the loop over the four directions returns exactly the children for the on-board targets, in the order up, down, left, right |
| PuzzleState.NeighborCount | csc3600lab6.py:42-56 | a node has two neighbours when its blank is in a corner, three on an edge and four in the centre, so always between two and four |
| PuzzleState.NeighborShape | csc3600lab6.py:42-56 | neighbour i is well built, has made one more move, has its parent as previous, and has the parent's board with the blank exchanged with an adjacent on-board cell, where the blank now is; its tiles are a rearrangement of the parent's |
| BoardFacts.SwapBlankHeuristic | csc3600lab6.py:18-32 | moving the blank to an adjacent cell changes the heuristic by exactly one when a tile moves, and not at all when the target also holds 0 |
| BoardFacts.SuccessorHeuristic | csc3600lab6.py:18-56 | one move from a well-formed board gives a well-formed board whose heuristic is at most one lower: the heuristic is consistent for moves of cost one |
| BoardFacts.AdmissibleVia | csc3600lab6.py:18-32 | for any move relation along which the heuristic drops by at most one per step, the heuristic of a board never exceeds the length of a path from it to the goal |
| BoardFacts.ManhattanAdmissible | csc3600lab6.py:18-32 | the heuristic of a well-formed board never exceeds the number of moves of any path from it to the goal: the heuristic is admissible |
| PuzzleState.NeighborPriority | csc3600lab6.py:42-56 | a neighbour's priority is never below its parent's; on a board holding each value once the heuristic changes by exactly one, so the priority stays equal or rises by two |
| PuzzleState.NeighborBoardsAreSuccessors | csc3600lab6.py:42-56 | the neighbours' boards are, in order, the successor boards of the parent's board |
| Search.LeastAt | csc3600lab6.py:71 | the chosen position holds an entry whose priority is at most every other entry's priority |
| Search.Pop | csc3600lab6.py:71 | the node taken out was in the frontier, no frontier node is less than it under the priority comparison, and the rest is the frontier with that one entry removed |
| Search.PoppedPriorityMonotone | csc3600lab6.py:58-80 | after a round, no node left in the frontier or pushed by it is less, by priority, than the node just taken out, so the priorities of the nodes taken out never decrease |
| Search.RemoveAt | csc3600lab6.py:71 | removing one entry keeps every other entry and adds none; the waiting boards lose at most that entry's board |
| Search.Expand | csc3600lab6.py:76-80 | the popped board joins the visited set, and the frontier gains, in order, the neighbours whose boards are not in the new visited set |
| Search.PushUnvisited | csc3600lab6.py:78-80 | the loop appends, in order, exactly the neighbours whose boards are not in the visited set |
| Search.UnvisitedMembers | csc3600lab6.py:79 | a neighbour is pushed if and only if its board is not in the visited set |
| Search.LinkedReaches | csc3600lab6.py:53 | following parent links, a node's move count is the length of a path of legal moves from the root's board to its board, and its tiles are a rearrangement of the root's |
| Search.NeighborLinked | csc3600lab6.py:53 | every neighbour of a node descended from a root descends from the same root |
| Search.FrontierFromInitial | csc3600lab6.py:64-80 | under the search invariant, every waiting node holds a rearrangement of the initial tiles and its move count is the length of a path from the initial board |
| Search.ExpandKeepsInv | csc3600lab6.py:70-80 | a round that does not find the goal keeps the search invariant: waiting nodes descend from the start node, no visited board is the goal, and every successor of a visited board is visited or waiting |
| Search.ExpandProgress | csc3600lab6.py:70-80 | each round either visits a board not visited before, or leaves the visited set alone and removes one frontier entry whose board was visited |
| Search.ExhaustedUnreachable | csc3600lab6.py:82 | once the frontier is empty under the invariant, no sequence of moves of any length leads from the initial board to the goal |
| Search.AStar | csc3600lab6.py:64-82 | a returned node has the goal board, descends from the initial board by legal moves, and its move count is a path length from the initial board that is at least the initial board's heuristic; None only when the goal is unreachable from the initial board |
| SolutionPath.Reversed | csc3600lab6.py:90 | the reversed list has the same length and holds element i of the input at position length-1-i |
| SolutionPath.ChainShape | csc3600lab6.py:85-89 | the walk starts at the solution, each element's parent is the next element, and it ends at a node with no parent whose board is the root board |
| SolutionPath.LinkedChainMoves | csc3600lab6.py:85-89 | for a node descended from a root, the walk has one element more than the node's move count, and element i has made i fewer moves |
| SolutionPath.PathTo | csc3600lab6.py:85-90 | the path is the reversed walk; it starts at a node without a parent, ends at the solution, and each node's parent is the node before it |
| SolutionPath.SolutionPathFacts | csc3600lab6.py:85-97 | for an answer of the search, the path runs from the initial board to the goal node, node i has made i moves, each board is a successor of the previous one, and the reported total of moves equals the answer's move count |

## Left out

- Printing (`__str__` at lines 61-62, the per-step output of `print_solution` at lines 92-97, and the main block) is not modelled. `SolutionPath.TotalMoves` models only the number printed at line 97.
- Search.Pop: the heap's choice among several nodes of least priority is left open. Any minimum may come out, so no tie-break order is modelled.
- Search.AStar: the contract does not say that the returned move count is the fewest possible. The heuristic's consistency (`BoardFacts.SuccessorHeuristic`) and admissibility (`BoardFacts.ManhattanAdmissible`) are proved, as is the monotone order in which nodes come out (`Search.PoppedPriorityMonotone`). The argument that the first goal node taken out has the least move count, in the presence of boards expanded twice, is not.
- Boards that are not 3x3, or that hold values outside 0..8, are excluded by the `WellFormed` precondition. In the program they behave as follows:
  - A board with more rows or columns is read by the heuristic only in its top-left 3x3 corner. It never passes the goal test, so the search runs until the frontier is empty and returns None.
  - A board with fewer rows or columns raises an IndexError. This happens in the blank scan (line 14) when no 0 comes before the missing cell, and otherwise in the heuristic (line 28).
  - A value outside 0..8 raises a KeyError in the heuristic's table lookup (line 30).
- Expanding a node with no blank is excluded by the `zeroPos.Some?` precondition. The program raises a TypeError when it unpacks `None`. `AStar` asks for a board with a blank; every node it creates then has one.
- Boards are values. The program's row-by-row copy and its tuple-of-tuples key for the visited set both become plain value equality. So the claim that a neighbour leaves its parent unchanged holds by construction rather than by proof.
- The heap is modelled as a sequence plus a least-priority choice. The heap's internal layout and its logarithmic cost are not modelled.
