/**
 * Reading the answer back: walk the parent links from the goal node to the
 * root, then reverse, so the path runs from the initial board to the goal.
 */
module SolutionPath {
  import opened Wrappers
  import opened Board
  import opened PuzzleState
  import opened Search

  /** The nodes met by following parent links from current, current first. */
  function ChainFrom(current: Option<State>): seq<State>
    decreases current
  {
    match current
    case None => []
    case Some(s) => [s] + ChainFrom(s.previous)
  }

  /** s in reverse order. */
  function Reversed<T>(s: seq<T>): (r: seq<T>)
    ensures |r| == |s|
    ensures forall i :: 0 <= i < |s| ==> r[i] == s[|s| - 1 - i]
  {
    if s == [] then [] else Reversed(s[1..]) + [s[0]]
  }

  /**
   * The chain from a node starts with it, follows its parent links one by one
   * and ends at a node with no parent whose board is the root board.
   */
  lemma {:induction false} ChainShape(s: State)
    ensures |ChainFrom(Some(s))| >= 1 && ChainFrom(Some(s))[0] == s
    ensures ChainFrom(Some(s))[|ChainFrom(Some(s))| - 1].previous.None?
    ensures ChainFrom(Some(s))[|ChainFrom(Some(s))| - 1].board == Origin(s)
    ensures forall i :: 0 <= i < |ChainFrom(Some(s))| - 1 ==> ChainFrom(Some(s))[i].previous == Some(ChainFrom(Some(s))[i + 1])
    decreases s
  {
    var c := ChainFrom(Some(s));
    match s.previous
    case None =>
      assert c == [s];
    case Some(p) =>
      ChainShape(p);
      assert c == [s] + ChainFrom(Some(p));
  }

  /**
   * Along the chain from a linked node, node i has made i fewer moves than
   * the node itself, so the chain has one node more than the moves made.
   */
  lemma {:induction false} LinkedChainMoves(s: State)
    requires Linked(s)
    ensures |ChainFrom(Some(s))| == s.move + 1
    ensures forall i :: 0 <= i < |ChainFrom(Some(s))| ==> ChainFrom(Some(s))[i].move == s.move - i
    decreases s
  {
    var c := ChainFrom(Some(s));
    match s.previous
    case None =>
      assert ChainFrom(s.previous) == [];
      assert c == [s] + [];
    case Some(p) =>
      LinkedChainMoves(p);
      var rest := ChainFrom(Some(p));
      assert c == [s] + rest;
      forall i | 0 < i < |c| ensures c[i].move == s.move - i {
        assert c[i] == rest[i - 1];
      }
  }

  /** Each board of c is a successor of the board after it. */
  ghost predicate StepsBack(c: seq<State>) {
    forall i :: 0 <= i < |c| - 1 ==> c[i].board in Successors(c[i + 1].board)
  }

  lemma StepsBackCons(s: State, rest: seq<State>)
    requires StepsBack(rest) && rest != [] && s.board in Successors(rest[0].board)
    ensures StepsBack([s] + rest)
  {
    var c := [s] + rest;
    forall i | 0 <= i < |c| - 1 ensures c[i].board in Successors(c[i + 1].board) {
      if i > 0 {
        assert c[i] == rest[i - 1] && c[i + 1] == rest[i];
      }
    }
  }

  /** Along the chain from a linked node, each board is a successor of the next node's board. */
  lemma {:induction false} LinkedChainSteps(s: State)
    requires Linked(s)
    ensures StepsBack(ChainFrom(Some(s)))
    decreases s
  {
    match s.previous
    case None =>
      assert ChainFrom(s.previous) == [];
      assert ChainFrom(Some(s)) == [s] + [];
    case Some(p) =>
      LinkedChainSteps(p);
      ChainShape(p);
      StepsBackCons(s, ChainFrom(Some(p)));
  }

  /** Read in reverse, a chain whose moves count down from m to 0 counts up from 0. */
  lemma ReversedMoves(c: seq<State>, m: int)
    requires |c| == m + 1 && forall i :: 0 <= i < |c| ==> c[i].move == m - i
    ensures forall i :: 0 <= i < |c| ==> Reversed(c)[i].move == i
  {
    forall i | 0 <= i < |c| ensures Reversed(c)[i].move == i {
      assert Reversed(c)[i] == c[|c| - 1 - i];
    }
  }

  /** Read in reverse, a chain that steps back steps forward. */
  lemma ReversedSteps(c: seq<State>)
    requires StepsBack(c)
    ensures forall i :: 0 < i < |c| ==> Reversed(c)[i].board in Successors(Reversed(c)[i - 1].board)
  {
    var r := Reversed(c);
    forall i | 0 < i < |c| ensures r[i].board in Successors(r[i - 1].board) {
      assert r[i] == c[|c| - 1 - i] && r[i - 1] == c[|c| - 1 - i + 1];
    }
  }

  /**
   * Collects the nodes from the goal node back to the root, then reverses
   * them: the path starts at a node with no parent, every later node's
   * parent is the node before it, and the path ends at the solution.
   */
  method PathTo(solution: State) returns (path: seq<State>)
    ensures path == Reversed(ChainFrom(Some(solution)))
    ensures |path| >= 1 && path[|path| - 1] == solution && path[0].previous.None?
    ensures forall i :: 0 < i < |path| ==> path[i].previous == Some(path[i - 1])
  {
    var walked: seq<State> := [];
    var current: Option<State> := Some(solution);
    while current.Some?
      invariant walked + ChainFrom(current) == ChainFrom(Some(solution))
      decreases |ChainFrom(current)|
    {
      assert ChainFrom(current) == [current.value] + ChainFrom(current.value.previous);
      walked := walked + [current.value];
      current := current.value.previous;
    }
    assert walked == ChainFrom(Some(solution));
    path := Reversed(walked);
    ChainShape(solution);
  }

  /** The number of moves the path shows: one fewer than its nodes. */
  function TotalMoves(path: seq<State>): int {
    |path| - 1
  }

  /**
   * For an answer of the search, the path runs from the initial board to the
   * goal, node i has made i moves, each board is a successor of the one
   * before, and the move total shown equals the answer's move count.
   */
  lemma SolutionPathFacts(initial: Grid, solution: State, path: seq<State>)
    requires Linked(solution) && Origin(solution) == initial
    requires path == Reversed(ChainFrom(Some(solution)))
    ensures TotalMoves(path) == solution.move
    ensures path[0].board == initial && path[|path| - 1] == solution
    ensures forall i :: 0 <= i < |path| ==> path[i].move == i
    ensures forall i :: 0 < i < |path| ==> path[i].board in Successors(path[i - 1].board)
  {
    ChainShape(solution);
    LinkedChainMoves(solution);
    ReversedMoves(ChainFrom(Some(solution)), solution.move);
    LinkedChainSteps(solution);
    ReversedSteps(ChainFrom(Some(solution)));
  }
}
