/**
 * The A* solver of the slider puzzle: two searches run in lock step, one
 * from the initial board and one from its twin, each keeping a priority
 * queue of search nodes ordered by Manhattan priority. The search that
 * first removes a goal node decides whether the initial board is solvable.
 */
module Solvers {
  import opened Wrappers
  import opened Boards

  // ---------------------------------------------------------------------
  // SearchNode
  // ---------------------------------------------------------------------

  /**
   * A search node: a board, the number of moves made to reach it, the node
   * it was reached from (None for the starting node) and its priority.
   */
  datatype SearchNode = SearchNode(board: Board, moves: nat, previous: Option<SearchNode>, priority: int)

  /** The node the SearchNode constructor builds for board b reached from p. */
  function NewNode(b: Board, p: Option<SearchNode>): SearchNode
    requires Square(b)
  {
    var moves := if p.None? then 0 else p.value.moves + 1;
    SearchNode(b, moves, p, ManhattanDistance(b) + moves)
  }

  /**
   * The SearchNode constructor: moves is 0 for a starting node and one more
   * than the predecessor's otherwise; the priority adds manhattan() to it.
   */
  method NewSearchNode(b: Board, p: Option<SearchNode>) returns (node: SearchNode)
    requires Square(b)
    ensures node == NewNode(b, p)
    ensures node.board == b && node.previous == p
    ensures node.moves == 0 <==> p.None?
    ensures p.Some? ==> node.moves == p.value.moves + 1
    ensures node.priority == ManhattanDistance(b) + node.moves >= node.moves
    ensures ValidBoard(b) ==> (node.priority == node.moves <==> IsGoalBoard(b))
  {
    var moves := 0;
    if p.Some? {
      moves := p.value.moves + 1;
    }
    var distance := Manhattan(b);
    node := SearchNode(b, moves, p, distance + moves);
  }

  /** compareTo(): negative, zero or positive as node's priority is below, equal to or above that's. */
  function CompareTo(node: SearchNode, that: SearchNode): (r: int)
    ensures r < 0 <==> node.priority < that.priority
    ensures r == 0 <==> node.priority == that.priority
    ensures r > 0 <==> node.priority > that.priority
  {
    node.priority - that.priority
  }

  /** compareTo() is antisymmetric and transitive, so it is a total preorder on nodes. */
  lemma CompareToOrder(x: SearchNode, y: SearchNode, z: SearchNode)
    ensures CompareTo(x, y) == -CompareTo(y, x)
    ensures CompareTo(x, y) <= 0 && CompareTo(y, z) <= 0 ==> CompareTo(x, z) <= 0
  {
  }

  /**
   * node lies on a chain of moves that starts at seed: every node holds a
   * valid board and the priority its constructor gives it, the starting
   * node holds seed with 0 moves, and every other node holds a neighbour
   * of its predecessor's board with one move more.
   */
  ghost predicate ChainFrom(node: SearchNode, seed: Board)
    decreases node
  {
    ValidBoard(node.board) &&
    node.priority == ManhattanDistance(node.board) + node.moves &&
    match node.previous
    case None => node.board == seed && node.moves == 0
    case Some(p) =>
      node.moves == p.moves + 1 && ValidBoard(p.board) && node.board in NeighborsOf(p.board) && ChainFrom(p, seed)
  }

  /** The boards from the starting node of node's chain up to node itself. */
  function Path(node: SearchNode): seq<Board>
    decreases node
  {
    match node.previous
    case None => [node.board]
    case Some(p) => Path(p) + [node.board]
  }

  /** p starts at b, ends at a goal board, and each board is a neighbour of the one before it. */
  ghost predicate IsSolution(b: Board, p: seq<Board>) {
    |p| > 0 && p[0] == b && Square(p[|p| - 1]) && IsGoalBoard(p[|p| - 1]) &&
    forall i :: 0 <= i < |p| - 1 ==> Square(p[i]) && p[i + 1] in NeighborsOf(p[i])
  }

  /**
   * The boards of a chain from seed: there are moves + 1 of them, the
   * first is seed, the last is node's board, and all are valid.
   */
  lemma {:induction false} PathProperties(node: SearchNode, seed: Board)
    requires ChainFrom(node, seed)
    ensures |Path(node)| == node.moves + 1
    ensures Path(node)[0] == seed && Path(node)[node.moves] == node.board
    ensures forall i :: 0 <= i < |Path(node)| ==> ValidBoard(Path(node)[i])
    decreases node
  {
    match node.previous
    case None =>
    case Some(p) =>
      PathProperties(p, seed);
      var pp := Path(p);
      assert Path(node) == pp + [node.board];
  }

  /** Along the boards of a chain from seed, each board is a neighbour of the one before it. */
  lemma PathMoves(node: SearchNode, seed: Board)
    requires ChainFrom(node, seed)
    ensures forall i :: 0 <= i < |Path(node)| - 1 ==> Square(Path(node)[i]) && Path(node)[i + 1] in NeighborsOf(Path(node)[i])
  {
    forall i | 0 <= i < |Path(node)| - 1
      ensures Square(Path(node)[i]) && Path(node)[i + 1] in NeighborsOf(Path(node)[i])
    {
      PathMoveAt(node, seed, i);
    }
  }

  /** The (i+1)-th board of a chain's path is a neighbour of the i-th. */
  lemma {:induction false} PathMoveAt(node: SearchNode, seed: Board, i: int)
    requires ChainFrom(node, seed) && 0 <= i < |Path(node)| - 1
    ensures Square(Path(node)[i]) && Path(node)[i + 1] in NeighborsOf(Path(node)[i])
    decreases node
  {
    var p := node.previous.value;
    var pp := Path(p);
    assert Path(node) == pp + [node.board];
    if i + 1 < |pp| {
      PathMoveAt(p, seed, i);
    } else {
      PathProperties(p, seed);
    }
  }

  /** A chain from seed that ends at a goal board yields a solution for seed with node.moves moves. */
  lemma ChainToGoalIsSolution(node: SearchNode, seed: Board)
    requires ChainFrom(node, seed) && IsGoalBoard(node.board)
    ensures IsSolution(seed, Path(node)) && |Path(node)| == node.moves + 1
  {
    PathProperties(node, seed);
    PathMoves(node, seed);
  }

  /** On a chain the priority is at least the number of moves, with equality exactly at a goal board. */
  lemma PriorityBounds(node: SearchNode, seed: Board)
    requires ChainFrom(node, seed)
    ensures node.moves <= node.priority
    ensures node.priority == node.moves <==> IsGoalBoard(node.board)
  {
    ManhattanZeroIffGoal(node.board);
  }

  // ---------------------------------------------------------------------
  // The priority queue
  // ---------------------------------------------------------------------

  /**
   * The minimum-priority queue of search nodes, kept as the multiset of
   * nodes it holds; delMin() removes a node no other node compares below.
   */
  class MinPQ {
    var contents: multiset<SearchNode>

    constructor ()
      ensures contents == multiset{}
    {
      contents := multiset{};
    }

    method Insert(x: SearchNode)
      modifies this
      ensures contents == old(contents) + multiset{x}
    {
      contents := contents + multiset{x};
    }

    method DelMin() returns (m: SearchNode)
      requires contents != multiset{}
      modifies this
      ensures m in old(contents)
      ensures forall y :: y in old(contents) ==> CompareTo(m, y) <= 0
      ensures IsMinimum(m, old(contents))
      ensures contents == old(contents) - multiset{m}
    {
      MinimumExists(contents);
      m :| IsMinimum(m, contents);
      contents := contents - multiset{m};
    }
  }

  /** m is in ms and no node of ms has a lower priority. */
  predicate IsMinimum(m: SearchNode, ms: multiset<SearchNode>) {
    m in ms && forall y :: y in ms ==> m.priority <= y.priority
  }

  /** Every non-empty multiset of nodes has a node of least priority. */
  lemma {:induction false} MinimumExists(ms: multiset<SearchNode>)
    requires ms != multiset{}
    ensures exists m :: IsMinimum(m, ms)
    decreases |ms|
  {
    var x :| x in ms;
    var rest := ms - multiset{x};
    if rest == multiset{} {
      forall y | y in ms
        ensures y == x
      {
        assert ms[y] == rest[y] + multiset{x}[y];
      }
      assert IsMinimum(x, ms);
    } else {
      MinimumExists(rest);
      var m :| IsMinimum(m, rest);
      var best := if x.priority < m.priority then x else m;
      assert best in ms by {
        assert rest[m] <= ms[m];
      }
      forall y | y in ms
        ensures best.priority <= y.priority
      {
        if y != x {
          assert rest[y] == ms[y];
        }
      }
      assert IsMinimum(best, ms);
    }
  }

  // ---------------------------------------------------------------------
  // Expanding a node
  // ---------------------------------------------------------------------

  /**
   * The "critical optimization": a neighbour is enqueued unless the node has
   * a predecessor and the neighbour equals the predecessor's board.
   */
  predicate Kept(node: SearchNode, nb: Board) {
    node.previous.None? || nb != node.previous.value.board
  }

  /** The nodes inserted while expanding node over the first k boards of nbs, in order. */
  function ChildrenUpTo(node: SearchNode, nbs: seq<Board>, k: int): (cs: seq<SearchNode>)
    requires AllSquare(nbs) && 0 <= k <= |nbs|
    ensures |cs| <= k
    decreases k
  {
    if k == 0 then []
    else
      var init := ChildrenUpTo(node, nbs, k - 1);
      if Kept(node, nbs[k - 1]) then init + [NewNode(nbs[k - 1], Some(node))] else init
  }

  /** The nodes inserted while expanding node over the boards nbs, in order. */
  function ChildrenOf(node: SearchNode, nbs: seq<Board>): seq<SearchNode>
    requires AllSquare(nbs)
  {
    ChildrenUpTo(node, nbs, |nbs|)
  }

  /** Membership in a prefix's children: built from a kept board of that prefix, pointing back at node. */
  lemma {:induction false} ChildrenUpToMembers(node: SearchNode, nbs: seq<Board>, k: int, c: SearchNode)
    requires AllSquare(nbs) && 0 <= k <= |nbs|
    ensures c in ChildrenUpTo(node, nbs, k) <==>
      c.board in nbs[..k] && Kept(node, c.board) && c == NewNode(c.board, Some(node))
    decreases k
  {
    if k > 0 {
      var nb := nbs[k - 1];
      ChildrenUpToMembers(node, nbs, k - 1, c);
      assert nbs[..k] == nbs[..k - 1] + [nb];
      if c.board == nb {
        assert c.board in nbs[..k];
      }
    }
  }

  /**
   * The children of node are exactly the nodes built from a board of nbs
   * that the critical optimization keeps, each pointing back at node.
   */
  lemma ChildrenOfMembers(node: SearchNode, nbs: seq<Board>, c: SearchNode)
    requires AllSquare(nbs)
    ensures c in ChildrenOf(node, nbs) <==>
      c.board in nbs && Kept(node, c.board) && c == NewNode(c.board, Some(node))
  {
    ChildrenUpToMembers(node, nbs, |nbs|, c);
    assert nbs[..|nbs|] == nbs;
  }

  /** The children of a node on a chain from seed are on chains from seed. */
  lemma ChildrenChain(node: SearchNode, seed: Board, c: SearchNode)
    requires ChainFrom(node, seed) && AllSquare(NeighborsOf(node.board))
    requires c in ChildrenOf(node, NeighborsOf(node.board))
    ensures ChainFrom(c, seed)
    ensures node.previous.Some? ==> c.board != node.previous.value.board
  {
    NeighborsValid(node.board);
    ChildrenOfMembers(node, NeighborsOf(node.board), c);
  }

  /**
   * A node whose board is valid but not the goal has at least one child:
   * its board has N >= 2, hence at least two distinct neighbours, and the
   * critical optimization drops at most one of them.
   */
  lemma ChildrenNonEmpty(node: SearchNode)
    requires ValidBoard(node.board) && !IsGoalBoard(node.board)
    ensures AllSquare(NeighborsOf(node.board)) && |ChildrenOf(node, NeighborsOf(node.board))| > 0
  {
    NeighborsValid(node.board);
    var b := node.board;
    if |b.blocks| <= 1 {
      SmallBoardsAreGoals(b);
    }
    NeighborCount(b);
    NeighborsDistinct(b);
    var nbs := NeighborsOf(b);
    var nb := if Kept(node, nbs[0]) then nbs[0] else nbs[1];
    ChildrenOfMembers(node, nbs, NewNode(nb, Some(node)));
  }

  /**
   * One for loop over neighbors() in the Solver constructor: each neighbour
   * the critical optimization keeps is wrapped in a new node pointing back
   * at node and inserted into pq.
   */
  method Expand(pq: MinPQ, node: SearchNode)
    requires ValidBoard(node.board)
    requires node.previous.Some? ==> Square(node.previous.value.board)
    modifies pq
    ensures AllSquare(NeighborsOf(node.board))
    ensures pq.contents == old(pq.contents) + multiset(ChildrenOf(node, NeighborsOf(node.board)))
  {
    if |node.board.blocks| > 0 {
      BlankExists(node.board);
    }
    var nbs := Neighbors(node.board);
    NeighborsValid(node.board);
    InsertChildren(pq, node, nbs);
  }

  /** That loop, run over the boards nbs in order. */
  method InsertChildren(pq: MinPQ, node: SearchNode, nbs: seq<Board>)
    requires AllSquare(nbs)
    requires node.previous.Some? ==> Square(node.previous.value.board)
    modifies pq
    ensures pq.contents == old(pq.contents) + multiset(ChildrenOf(node, nbs))
  {
    var i := 0;
    while i < |nbs|
      invariant 0 <= i <= |nbs|
      invariant pq.contents == old(pq.contents) + multiset(ChildrenUpTo(node, nbs, i))
    {
      InsertChild(pq, node, nbs, i, old(pq.contents));
      i := i + 1;
    }
  }

  /**
   * The body of that loop for neighbor nbs[i]: unless node has a
   * predecessor whose board equals it, insert a new node for it that
   * points back at node. start is what pq held before the loop.
   */
  method InsertChild(pq: MinPQ, node: SearchNode, nbs: seq<Board>, i: int, ghost start: multiset<SearchNode>)
    requires AllSquare(nbs) && 0 <= i < |nbs|
    requires node.previous.Some? ==> Square(node.previous.value.board)
    requires pq.contents == start + multiset(ChildrenUpTo(node, nbs, i))
    modifies pq
    ensures pq.contents == start + multiset(ChildrenUpTo(node, nbs, i + 1))
  {
    var neighbor := nbs[i];
    var keep := true;
    if node.previous.Some? {
      var same := Equals(neighbor, BoardObject(node.previous.value.board));
      keep := !same;
    }
    if keep {
      var child := NewSearchNode(neighbor, Some(node));
      pq.Insert(child);
    }
  }

  // ---------------------------------------------------------------------
  // The search
  // ---------------------------------------------------------------------

  /**
   * popped lists nodes removed from a queue seeded with seed's own node:
   * that node comes first and every node lies on a chain from seed.
   */
  ghost predicate Explored(popped: seq<SearchNode>, seed: Board)
    decreases |popped|
  {
    // Named, so that a goal Explored(...) is proved as one fact rather than split into its cases.
    var explored :=
      if |popped| <= 1 then
        popped == [] || (Square(seed) && popped[0] == NewNode(seed, None) && ChainFrom(popped[0], seed))
      else
        Explored(popped[..|popped| - 1], seed) && ChainFrom(popped[|popped| - 1], seed);
    explored
  }

  /** The first node of a non-empty explored sequence is seed's own node. */
  lemma {:induction false} ExploredFirst(popped: seq<SearchNode>, seed: Board)
    requires Explored(popped, seed) && |popped| > 0
    ensures Square(seed) && popped[0] == NewNode(seed, None)
    decreases |popped|
  {
    if |popped| > 1 {
      var init := popped[..|popped| - 1];
      ExploredFirst(init, seed);
      assert init[0] == popped[0];
    }
  }

  /** No node of popped holds a goal board. */
  ghost predicate NoGoal(popped: seq<SearchNode>) {
    forall i :: 0 <= i < |popped| ==> !IsGoalBoard(popped[i].board)
  }

  lemma ExploredSnoc(popped: seq<SearchNode>, x: SearchNode, seed: Board)
    requires Explored(popped, seed) && ChainFrom(x, seed)
    requires |popped| == 0 ==> Square(seed) && x == NewNode(seed, None)
    ensures Explored(popped + [x], seed) && (popped + [x])[..|popped|] == popped
  {
    assert (popped + [x])[..|popped|] == popped;
  }

  lemma NoGoalSnoc(popped: seq<SearchNode>, x: SearchNode)
    requires NoGoal(popped) && !IsGoalBoard(x.board)
    ensures NoGoal(popped + [x])
  {
    assert forall i :: 0 <= i < |popped| ==> (popped + [x])[i] == popped[i];
  }

  /**
   * One expansion step of a queue: before held x, delMin() removed x, and
   * the children the critical optimization keeps were inserted.
   */
  ghost predicate Expands(before: multiset<SearchNode>, x: SearchNode, after: multiset<SearchNode>) {
    Square(x.board) && AllSquare(NeighborsOf(x.board)) && after == Expanded(before, x)
  }

  /** The queue before, once delMin() has removed x and x's kept children are inserted. */
  ghost function Expanded(before: multiset<SearchNode>, x: SearchNode): multiset<SearchNode>
    requires Square(x.board) && AllSquare(NeighborsOf(x.board))
  {
    before - multiset{x} + multiset(ChildrenOf(x, NeighborsOf(x.board)))
  }

  /**
   * The history of one queue: frontiers[i] is what the queue held when
   * round i removed popped[i]. The queue starts with seed's own node, each
   * removed node has minimum priority in the queue it was removed from,
   * and each queue is the one before it after removing and expanding that
   * round's node. frontiers may also hold the queue after the last round.
   */
  ghost predicate Removals(frontiers: seq<multiset<SearchNode>>, popped: seq<SearchNode>, seed: Board)
    decreases |popped|
  {
    // Named for the same reason as in Explored.
    var recorded :=
      if |popped| == 0 then
        |frontiers| <= 1 && (|frontiers| == 1 ==> Square(seed) && frontiers[0] == multiset{NewNode(seed, None)})
      else
        var k := |popped| - 1;
        if |frontiers| == k + 1 then
          Removals(frontiers, popped[..k], seed) && IsMinimum(popped[k], frontiers[k])
        else
          |frontiers| == k + 2 &&
          Removals(frontiers[..k + 1], popped[..k], seed) && IsMinimum(popped[k], frontiers[k]) &&
          Expands(frontiers[k], popped[k], frontiers[k + 1]);
    recorded
  }

  /** The prefix of a history that a non-empty history builds on. */
  ghost function Earlier(frontiers: seq<multiset<SearchNode>>, popped: seq<SearchNode>): seq<multiset<SearchNode>>
    requires 0 < |popped| <= |frontiers|
  {
    if |frontiers| == |popped| then frontiers else frontiers[..|popped|]
  }

  /** A queue history starts with seed's node alone and has one queue per round, plus possibly one more. */
  lemma {:induction false} RemovalsStart(frontiers: seq<multiset<SearchNode>>, popped: seq<SearchNode>, seed: Board)
    requires Removals(frontiers, popped, seed)
    ensures |popped| <= |frontiers| <= |popped| + 1
    ensures |frontiers| > 0 ==> Square(seed) && frontiers[0] == multiset{NewNode(seed, None)}
    decreases |popped|
  {
    if |popped| > 0 {
      var fs := Earlier(frontiers, popped);
      RemovalsStart(fs, popped[..|popped| - 1], seed);
      assert frontiers[0] == fs[0];
    }
  }

  /** In a queue history every removed node is a minimum of the queue it was removed from. */
  lemma {:induction false} RemovalsMinima(frontiers: seq<multiset<SearchNode>>, popped: seq<SearchNode>, seed: Board)
    requires Removals(frontiers, popped, seed)
    ensures forall i :: 0 <= i < |popped| ==> i < |frontiers| && IsMinimum(popped[i], frontiers[i])
    decreases |popped|
  {
    if |popped| > 0 {
      var k := |popped| - 1;
      var fs, ps := Earlier(frontiers, popped), popped[..k];
      assert Removals(fs, ps, seed) && IsMinimum(popped[k], frontiers[k]);
      RemovalsMinima(fs, ps, seed);
      forall i | 0 <= i < |popped|
        ensures i < |frontiers| && IsMinimum(popped[i], frontiers[i])
      {
        if i < k {
          assert IsMinimum(ps[i], fs[i]);
          assert popped[i] == ps[i] && frontiers[i] == fs[i];
        } else {
          assert i == k;
        }
      }
    }
  }

  /** In a queue history each queue is the one before it after removing and expanding that round's node. */
  lemma {:induction false} RemovalsSteps(frontiers: seq<multiset<SearchNode>>, popped: seq<SearchNode>, seed: Board)
    requires Removals(frontiers, popped, seed)
    ensures forall i {:trigger popped[i]} :: 0 <= i < |frontiers| - 1 ==> i < |popped| && Expands(frontiers[i], popped[i], frontiers[i + 1])
    decreases |popped|
  {
    if |popped| > 0 {
      var k := |popped| - 1;
      var fs, ps := Earlier(frontiers, popped), popped[..k];
      RemovalsSteps(fs, ps, seed);
      RemovalsStart(fs, ps, seed);
      forall i {:trigger popped[i]} | 0 <= i < |frontiers| - 1
        ensures i < |popped| && Expands(frontiers[i], popped[i], frontiers[i + 1])
      {
        if i < k {
          assert Expands(fs[i], ps[i], fs[i + 1]);
          assert popped[i] == ps[i] && frontiers[i] == fs[i] && frontiers[i + 1] == fs[i + 1];
        } else {
          assert i == k && |frontiers| == k + 2;
        }
      }
    }
  }

  /** A round that stops after its removal: x, a minimum of the current queue, joins the history. */
  lemma RemovalsStop(frontiers: seq<multiset<SearchNode>>, popped: seq<SearchNode>, x: SearchNode, seed: Board)
    requires Removals(frontiers, popped, seed) && |frontiers| == |popped| + 1
    requires IsMinimum(x, frontiers[|popped|])
    ensures Removals(frontiers, popped + [x], seed) && |frontiers| == |popped + [x]|
  {
    var ps, k := popped + [x], |popped|;
    assert ps[..k] == popped && ps[k] == x;
  }

  /** A round that expands x: the queue after the expansion joins the history. */
  lemma RemovalsExpand(frontiers: seq<multiset<SearchNode>>, popped: seq<SearchNode>, x: SearchNode,
                       after: multiset<SearchNode>, seed: Board)
    requires Removals(frontiers, popped, seed) && |frontiers| == |popped| + 1
    requires IsMinimum(x, frontiers[|popped|]) && Expands(frontiers[|popped|], x, after)
    ensures Removals(frontiers + [after], popped + [x], seed) && |frontiers + [after]| == |popped + [x]| + 1
  {
    var fs, ps, k := frontiers + [after], popped + [x], |popped|;
    assert ps[..k] == popped && ps[k] == x;
    assert fs[..k + 1] == frontiers && fs[k] == frontiers[k] && fs[k + 1] == after;
    assert Removals(fs[..k + 1], ps[..k], seed);
  }

  /**
   * The queue histories of both searches: after a decision, one queue
   * state per round; after the bound ran out, also the queues left over.
   */
  ghost predicate QueueHistory(initial: Board, finished: bool, popped: seq<SearchNode>, twinPopped: seq<SearchNode>,
                               frontiers: seq<multiset<SearchNode>>, twinFrontiers: seq<multiset<SearchNode>>)
    requires Square(initial)
  {
    var size := if finished then |popped| else |popped| + 1;
    |frontiers| == size && |twinFrontiers| == size &&
    Removals(frontiers, popped, initial) && Removals(twinFrontiers, twinPopped, TwinOf(initial))
  }

  /**
   * What the lock-step search has done after k rounds: popped[i] and
   * twinPopped[i] are the nodes removed from the main and the twin queue
   * in round i, each queue seeded with its board's own node (the initial
   * board's and its twin's). No node removed before the last round holds
   * a goal board, and:
   *  - result is the last main node exactly when it holds a goal;
   *  - the search stopped with no result exactly when the last main node
   *    is not a goal and the last twin node is;
   *  - if the search did not stop, all fuel rounds ran and no removed
   *    node holds a goal board.
   */
  ghost predicate SearchOutcome(initial: Board, fuel: nat, result: Option<SearchNode>, finished: bool,
                                popped: seq<SearchNode>, twinPopped: seq<SearchNode>)
    requires Square(initial)
  {
    match result
    case Some(goal) =>
      var k := |popped|;
      finished && 0 < k == |twinPopped| <= fuel &&
      Explored(popped, initial) && Explored(twinPopped, TwinOf(initial)) &&
      goal == popped[k - 1] && IsGoalBoard(goal.board) &&
      NoGoal(popped[..k - 1]) && NoGoal(twinPopped[..k - 1])
    case None =>
      var k := |popped|;
      k == |twinPopped| <= fuel &&
      Explored(popped, initial) && Explored(twinPopped, TwinOf(initial)) &&
      if finished then
        0 < k && !IsGoalBoard(popped[k - 1].board) && IsGoalBoard(twinPopped[k - 1].board) &&
        NoGoal(popped[..k - 1]) && NoGoal(twinPopped[..k - 1])
      else
        k == fuel && NoGoal(popped) && NoGoal(twinPopped)
  }

  /** Everything the search records about itself: its outcome and the histories of both queues. */
  ghost predicate SearchRecord(initial: Board, fuel: nat, result: Option<SearchNode>, finished: bool,
                               popped: seq<SearchNode>, twinPopped: seq<SearchNode>,
                               frontiers: seq<multiset<SearchNode>>, twinFrontiers: seq<multiset<SearchNode>>)
  {
    // Named for the same reason as in Explored.
    var recorded :=
      ValidBoard(initial) &&
      SearchOutcome(initial, fuel, result, finished, popped, twinPopped) &&
      QueueHistory(initial, finished, popped, twinPopped, frontiers, twinFrontiers);
    recorded
  }

  /** The round in which the main node holds a goal ends the search with that node. */
  lemma MainGoalOutcome(initial: Board, fuel: nat, popped: seq<SearchNode>, twinPopped: seq<SearchNode>,
                        node: SearchNode, twinNode: SearchNode)
    requires ValidBoard(initial) && |popped| == |twinPopped| < fuel
    requires Explored(popped + [node], initial) && Explored(twinPopped + [twinNode], TwinOf(initial))
    requires NoGoal(popped) && NoGoal(twinPopped) && IsGoalBoard(node.board)
    ensures SearchOutcome(initial, fuel, Some(node), true, popped + [node], twinPopped + [twinNode])
  {
    assert (popped + [node])[..|popped|] == popped;
    assert (twinPopped + [twinNode])[..|twinPopped|] == twinPopped;
  }

  /** The round in which only the twin node holds a goal ends the search with no result. */
  lemma TwinGoalOutcome(initial: Board, fuel: nat, popped: seq<SearchNode>, twinPopped: seq<SearchNode>,
                        node: SearchNode, twinNode: SearchNode)
    requires ValidBoard(initial) && |popped| == |twinPopped| < fuel
    requires Explored(popped + [node], initial) && Explored(twinPopped + [twinNode], TwinOf(initial))
    requires NoGoal(popped) && NoGoal(twinPopped) && !IsGoalBoard(node.board) && IsGoalBoard(twinNode.board)
    ensures SearchOutcome(initial, fuel, None, true, popped + [node], twinPopped + [twinNode])
  {
    assert (popped + [node])[..|popped|] == popped;
    assert (twinPopped + [twinNode])[..|twinPopped|] == twinPopped;
  }

  /** Running out of fuel without meeting a goal ends the search undecided, with both queues left over. */
  lemma ExhaustedOutcome(initial: Board, fuel: nat, popped: seq<SearchNode>, twinPopped: seq<SearchNode>,
                         frontiers: seq<multiset<SearchNode>>, twinFrontiers: seq<multiset<SearchNode>>)
    requires ValidBoard(initial) && |popped| == |twinPopped| == fuel
    requires Explored(popped, initial) && Explored(twinPopped, TwinOf(initial))
    requires NoGoal(popped) && NoGoal(twinPopped)
    requires Removals(frontiers, popped, initial) && |frontiers| == |popped| + 1
    requires Removals(twinFrontiers, twinPopped, TwinOf(initial)) && |twinFrontiers| == |twinPopped| + 1
    ensures SearchRecord(initial, fuel, None, false, popped, twinPopped, frontiers, twinFrontiers)
  {
  }

  /**
   * The round in which the main or the twin node holds a goal ends the
   * search: with the main node if it holds one, and with no result otherwise.
   */
  lemma DecidedOutcome(initial: Board, fuel: nat, popped: seq<SearchNode>, twinPopped: seq<SearchNode>,
                       node: SearchNode, twinNode: SearchNode,
                       frontiers: seq<multiset<SearchNode>>, twinFrontiers: seq<multiset<SearchNode>>)
    requires ValidBoard(initial) && |popped| == |twinPopped| < fuel
    requires Explored(popped + [node], initial) && Explored(twinPopped + [twinNode], TwinOf(initial))
    requires NoGoal(popped) && NoGoal(twinPopped) && (IsGoalBoard(node.board) || IsGoalBoard(twinNode.board))
    requires Removals(frontiers, popped, initial) && |frontiers| == |popped| + 1 && IsMinimum(node, frontiers[|popped|])
    requires Removals(twinFrontiers, twinPopped, TwinOf(initial)) && |twinFrontiers| == |twinPopped| + 1
    requires IsMinimum(twinNode, twinFrontiers[|twinPopped|])
    ensures SearchRecord(initial, fuel, if IsGoalBoard(node.board) then Some(node) else None, true,
                         popped + [node], twinPopped + [twinNode], frontiers, twinFrontiers)
  {
    if IsGoalBoard(node.board) {
      MainGoalOutcome(initial, fuel, popped, twinPopped, node, twinNode);
    } else {
      TwinGoalOutcome(initial, fuel, popped, twinPopped, node, twinNode);
    }
    StoppedHistory(initial, popped, twinPopped, node, twinNode, frontiers, twinFrontiers);
  }

  /** A round that decides the search closes both queue histories with the nodes it removed. */
  lemma StoppedHistory(initial: Board, popped: seq<SearchNode>, twinPopped: seq<SearchNode>,
                       node: SearchNode, twinNode: SearchNode,
                       frontiers: seq<multiset<SearchNode>>, twinFrontiers: seq<multiset<SearchNode>>)
    requires Square(initial) && |popped| == |twinPopped|
    requires Removals(frontiers, popped, initial) && |frontiers| == |popped| + 1 && IsMinimum(node, frontiers[|popped|])
    requires Removals(twinFrontiers, twinPopped, TwinOf(initial)) && |twinFrontiers| == |twinPopped| + 1
    requires IsMinimum(twinNode, twinFrontiers[|twinPopped|])
    ensures QueueHistory(initial, true, popped + [node], twinPopped + [twinNode], frontiers, twinFrontiers)
  {
    RemovalsStop(frontiers, popped, node, initial);
    RemovalsStop(twinFrontiers, twinPopped, twinNode, TwinOf(initial));
  }

  /** Every node of the multiset ms lies on a chain from seed. */
  ghost predicate AllChainFrom(ms: multiset<SearchNode>, seed: Board) {
    forall x :: x in ms ==> ChainFrom(x, seed)
  }

  /**
   * The state of both queues between rounds: two distinct non-empty queues
   * of chains from their seeds, each holding only its seed's node before
   * the first round; popped and twinPopped are what earlier rounds removed.
   */
  ghost predicate Frontier(pq: MinPQ, twinPq: MinPQ, initial: Board, twin: Board,
                           popped: seq<SearchNode>, twinPopped: seq<SearchNode>)
    reads pq, twinPq
  {
    pq != twinPq &&
    pq.contents != multiset{} && twinPq.contents != multiset{} &&
    AllChainFrom(pq.contents, initial) && AllChainFrom(twinPq.contents, twin) &&
    Explored(popped, initial) && Explored(twinPopped, twin) &&
    (|popped| == 0 ==> Square(initial) && pq.contents == multiset{NewNode(initial, None)}) &&
    (|twinPopped| == 0 ==> Square(twin) && twinPq.contents == multiset{NewNode(twin, None)})
  }

  /**
   * One round of that loop: remove the minimum of both queues, test the
   * main node and then the twin node for the goal, and unless one of them
   * holds it expand both nodes into their queues.
   */
  method Round(pq: MinPQ, twinPq: MinPQ, initial: Board, twin: Board,
               ghost popped: seq<SearchNode>, ghost twinPopped: seq<SearchNode>)
    returns (node: SearchNode, twinNode: SearchNode, goal: bool, twinGoal: bool)
    requires Frontier(pq, twinPq, initial, twin, popped, twinPopped)
    modifies pq, twinPq
    ensures Explored(popped + [node], initial) && Explored(twinPopped + [twinNode], twin)
    ensures IsMinimum(node, old(pq.contents)) && IsMinimum(twinNode, old(twinPq.contents))
    ensures goal == IsGoalBoard(node.board)
    ensures !goal ==> twinGoal == IsGoalBoard(twinNode.board)
    ensures !goal && !twinGoal ==> Frontier(pq, twinPq, initial, twin, popped + [node], twinPopped + [twinNode])
    ensures !goal && !twinGoal ==>
      Expands(old(pq.contents), node, pq.contents) && Expands(old(twinPq.contents), twinNode, twinPq.contents)
    ensures goal || twinGoal ==>
      pq.contents == old(pq.contents) - multiset{node} && twinPq.contents == old(twinPq.contents) - multiset{twinNode}
  {
    node := pq.DelMin();
    twinNode := twinPq.DelMin();
    ExploredSnoc(popped, node, initial);
    ExploredSnoc(twinPopped, twinNode, twin);
    goal := IsGoal(node.board);
    twinGoal := false;
    if !goal {
      twinGoal := IsGoal(twinNode.board);
      if !twinGoal {
        ExpandChain(pq, node, initial);
        ExpandChain(twinPq, twinNode, twin);
      }
    }
  }

  /**
   * The start of the Solver constructor: one queue seeded with the initial
   * board's node and one seeded with its twin's node.
   */
  method Start(initial: Board) returns (pq: MinPQ, twinPq: MinPQ, twin: Board)
    requires ValidBoard(initial)
    ensures fresh(pq) && fresh(twinPq)
    ensures twin == TwinOf(initial)
    ensures Frontier(pq, twinPq, initial, twin, [], [])
  {
    twin := Twin(initial);
    TwinValid(initial);
    pq := new MinPQ();
    twinPq := new MinPQ();
    var seedNode := NewSearchNode(initial, None);
    pq.Insert(seedNode);
    var twinSeedNode := NewSearchNode(twin, None);
    twinPq.Insert(twinSeedNode);
  }

  /**
   * The loop of the Solver constructor, bounded by fuel rounds: remove the
   * minimum of both queues; stop with the main node if it holds a goal,
   * stop with no result if the twin node does, and otherwise expand both.
   */
  method Search(initial: Board, fuel: nat)
    returns (result: Option<SearchNode>, finished: bool, ghost popped: seq<SearchNode>, ghost twinPopped: seq<SearchNode>,
             ghost frontiers: seq<multiset<SearchNode>>, ghost twinFrontiers: seq<multiset<SearchNode>>)
    requires ValidBoard(initial)
    ensures SearchRecord(initial, fuel, result, finished, popped, twinPopped, frontiers, twinFrontiers)
    ensures result.Some? ==> finished && ChainFrom(result.value, initial) && IsGoalBoard(result.value.board)
  {
    var pq, twinPq, twin := Start(initial);
    result, finished := None, false;
    popped, twinPopped := [], [];
    frontiers, twinFrontiers := [pq.contents], [twinPq.contents];
    var rounds := 0;
    while rounds < fuel
      invariant rounds <= fuel && |popped| == |twinPopped| == rounds
      invariant Frontier(pq, twinPq, initial, twin, popped, twinPopped)
      invariant NoGoal(popped) && NoGoal(twinPopped)
      invariant result.None? && !finished
      invariant Removals(frontiers, popped, initial) && |frontiers| == rounds + 1 && frontiers[rounds] == pq.contents
      invariant Removals(twinFrontiers, twinPopped, twin) && |twinFrontiers| == rounds + 1 && twinFrontiers[rounds] == twinPq.contents
    {
      var node, twinNode, goal, twinGoal := Round(pq, twinPq, initial, twin, popped, twinPopped);
      if goal || twinGoal {
        DecidedOutcome(initial, fuel, popped, twinPopped, node, twinNode, frontiers, twinFrontiers);
        result := if goal then Some(node) else None;
        finished := true;
        popped, twinPopped := popped + [node], twinPopped + [twinNode];
        break;
      }
      RemovalsExpand(frontiers, popped, node, pq.contents, initial);
      RemovalsExpand(twinFrontiers, twinPopped, twinNode, twinPq.contents, twin);
      NoGoalSnoc(popped, node);
      NoGoalSnoc(twinPopped, twinNode);
      popped, twinPopped := popped + [node], twinPopped + [twinNode];
      frontiers, twinFrontiers := frontiers + [pq.contents], twinFrontiers + [twinPq.contents];
      rounds := rounds + 1;
    }
    if !finished {
      ExhaustedOutcome(initial, fuel, popped, twinPopped, frontiers, twinFrontiers);
    }
  }

  /**
   * Expand a non-goal node taken from a queue of chains from seed: the
   * queue stays non-empty and holds only chains from seed.
   */
  method ExpandChain(pq: MinPQ, node: SearchNode, seed: Board)
    requires ChainFrom(node, seed) && !IsGoalBoard(node.board)
    requires AllChainFrom(pq.contents, seed)
    modifies pq
    ensures AllSquare(NeighborsOf(node.board))
    ensures pq.contents == old(pq.contents) + multiset(ChildrenOf(node, NeighborsOf(node.board)))
    ensures pq.contents != multiset{}
    ensures AllChainFrom(pq.contents, seed)
  {
    Expand(pq, node);
    var cs := ChildrenOf(node, NeighborsOf(node.board));
    ChildrenNonEmpty(node);
    assert cs[0] in multiset(cs);
    forall x | x in pq.contents
      ensures ChainFrom(x, seed)
    {
      if x in multiset(cs) {
        ChildrenChain(node, seed, x);
      }
    }
  }

  // ---------------------------------------------------------------------
  // Solver
  // ---------------------------------------------------------------------

  /** The solver object: the goal node found for the initial board, if any. */
  class Solver {
    var result: Option<SearchNode>
    /** Whether the bounded search reached a decision (always true in the unbounded original). */
    var finished: bool
    ghost var initial: Board
    ghost var fuel: nat
    ghost var popped: seq<SearchNode>
    ghost var twinPopped: seq<SearchNode>
    ghost var frontiers: seq<multiset<SearchNode>>
    ghost var twinFrontiers: seq<multiset<SearchNode>>

    ghost predicate Valid()
      reads this
    {
      SearchRecord(initial, fuel, result, finished, popped, twinPopped, frontiers, twinFrontiers)
    }

    /** Solver(initial): runs the lock-step A* search (for at most fuel rounds). */
    constructor (initial: Board, fuel: nat)
      requires ValidBoard(initial)
      ensures Valid() && this.initial == initial && this.fuel == fuel
    {
      var r, f, p, tp, fs, tfs := Search(initial, fuel);
      result, finished := r, f;
      this.initial, this.fuel := initial, fuel;
      popped, twinPopped := p, tp;
      frontiers, twinFrontiers := fs, tfs;
    }

    /**
     * isSolvable(): true exactly when the main search found a goal; then
     * the initial board has a solution, and otherwise the twin has one.
     */
    method IsSolvable() returns (solvable: bool)
      requires Valid() && finished
      ensures solvable <==> result.Some?
      ensures solvable ==> IsSolution(initial, Path(result.value))
      ensures !solvable ==> |twinPopped| > 0 && IsSolution(TwinOf(initial), Path(twinPopped[|twinPopped| - 1]))
    {
      solvable := result.Some?;
      if solvable {
        ChainToGoalIsSolution(result.value, initial);
      } else {
        ChainToGoalIsSolution(twinPopped[|twinPopped| - 1], TwinOf(initial));
      }
    }

    /** moves(): the number of moves of the solution found, or -1 when there is none. */
    method Moves() returns (m: int)
      requires Valid() && finished
      ensures result.None? ==> m == -1
      ensures result.Some? ==> m >= 0 && m == |Path(result.value)| - 1 && IsSolution(initial, Path(result.value))
    {
      if result.Some? {
        ChainToGoalIsSolution(result.value, initial);
        return result.value.moves;
      }
      return -1;
    }

    /**
     * solution(): None when there is no solution; otherwise the boards from
     * the initial board to the goal.
     */
    method Solution() returns (s: Option<seq<Board>>)
      requires Valid() && finished
      ensures s.None? <==> result.None?
      ensures s.Some? ==> s.value == Path(result.value) && IsSolution(initial, s.value)
      ensures s.Some? ==> |s.value| == result.value.moves + 1
    {
      if result.None? {
        return None;
      }
      var stack := PushPath(result.value);
      ChainToGoalIsSolution(result.value, initial);
      return Some(stack);
    }
  }

  /**
   * The loop of solution(): follow the predecessor links from node,
   * pushing each board on a stack, so that the stack lists the boards
   * from the start of the chain to node.
   */
  method PushPath(node: SearchNode) returns (stack: seq<Board>)
    ensures stack == Path(node)
  {
    stack := [];
    var n := Some(node);
    while n.Some?
      invariant n.Some? ==> Path(n.value) + stack == Path(node)
      invariant n.None? ==> stack == Path(node)
      decreases n
    {
      stack := [n.value.board] + stack;
      n := n.value.previous;
    }
  }
}
