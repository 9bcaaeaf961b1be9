/** The greedy best-first and A* searches of lab_03/informed_search.py over
    a table of lettered states. A node records its state, its parent node,
    the cost of the path to it, the heuristic value of its state and the
    priority it is queued with. The search tests for a goal when a node is
    popped, expands each state once, and queues every child, explored or
    not. */
module Informed {
  import opened Wrappers
  import MinQueue
  import Seqs

  /** One row of `graph`: the neighbours with their edge costs, in the
      order they are listed, and the heuristic value `h`. */
  datatype Info = Info(neighbors: seq<(char, nat)>, h: nat)

  type Graph = map<char, Info>

  /** The table of the lab: A to L, with K and L the goals. */
  const Table: Graph := map[
    'A' := Info([('B', 1), ('C', 2), ('D', 4)], 6),
    'B' := Info([('F', 5), ('E', 4)], 5),
    'C' := Info([('E', 1)], 5),
    'D' := Info([('H', 1), ('I', 1), ('J', 2)], 2),
    'E' := Info([('G', 2), ('H', 3)], 4),
    'F' := Info([('G', 1)], 5),
    'G' := Info([('K', 6)], 4),
    'H' := Info([('K', 6), ('L', 5)], 1),
    'I' := Info([('L', 3)], 2),
    'J' := Info([], 1),
    'K' := Info([], 0),
    'L' := Info([], 0)
  ]

  /** `GOAL_STATES`. */
  const GoalStates: seq<char> := ['K', 'L']

  /** Every listed neighbour has a row of its own: looking it up never
      fails. */
  ghost predicate GraphOk(graph: Graph) {
    forall x, j :: x in graph && 0 <= j < |graph[x].neighbors| ==> graph[x].neighbors[j].0 in graph
  }

  /** `y` is listed as a neighbour of `x`. */
  ghost predicate Adjacent(graph: Graph, x: char, y: char) {
    x in graph && exists j :: 0 <= j < |graph[x].neighbors| && graph[x].neighbors[j].0 == y
  }

  // ---------------------------------------------------------------------
  // Nodes.

  datatype Node = Node(state: char, parent: Option<Node>, pathCost: nat, heuristic: nat, totalCost: real)

  /** `TOTAL_COST`: the heuristic alone when the weight is 0, otherwise
      the path cost plus the weighted heuristic. */
  function TotalCost(pathCost: nat, heuristic: nat, fWeight: real): (f: real)
    ensures fWeight == 0.0 ==> f == heuristic as real
    ensures fWeight == 1.0 ==> f == (pathCost + heuristic) as real
  {
    if fWeight == 0.0 then heuristic as real else pathCost as real + fWeight * heuristic as real
  }

  /** `Node(...)`: the constructor computes the priority. */
  function MakeNode(state: char, parent: Option<Node>, pathCost: nat, heuristic: nat, fWeight: real): (n: Node)
    ensures n.state == state && n.parent == parent && n.pathCost == pathCost && n.heuristic == heuristic
    ensures n.totalCost == TotalCost(pathCost, heuristic, fWeight)
  {
    Node(state, parent, pathCost, heuristic, TotalCost(pathCost, heuristic, fWeight))
  }

  /** The weight a search builds its nodes with: greedy search, or any
      algorithm name other than "astar", uses 0. */
  function Weight(algorithm: string, fWeight: real): real {
    if algorithm == "astar" then fWeight else 0.0
  }

  /** The nodes from the root down to `n`, following parents. */
  function Chain(n: Node): (c: seq<Node>)
    ensures |c| >= 1 && c[|c| - 1] == n
  {
    match n.parent
    case None => [n]
    case Some(p) => Chain(p) + [n]
  }

  /** `q` is a child of `p`: its parent is `p`, its state is a neighbour of
      `p`'s, and its path cost adds that edge's cost. */
  ghost predicate Linked(graph: Graph, p: Node, q: Node) {
    q.parent == Some(p) && p.state in graph &&
    exists j :: 0 <= j < |graph[p.state].neighbors| &&
      graph[p.state].neighbors[j].0 == q.state && q.pathCost == p.pathCost + graph[p.state].neighbors[j].1
  }

  /** A root node for `start` at no cost, or a node linked to a valid
      parent. */
  ghost predicate Valid(graph: Graph, start: char, n: Node) {
    match n.parent
    case None => n.state == start && n.pathCost == 0
    case Some(p) => Valid(graph, start, p) && Linked(graph, p, n)
  }

  /** A path as `Node.path` returns it: from a root for `start`, each node
      a child of the one before. */
  ghost predicate IsRoute(graph: Graph, start: char, p: seq<Node>) {
    |p| >= 1 && p[0].state == start && p[0].parent.None? && p[0].pathCost == 0 &&
    forall i :: 0 < i < |p| ==> Linked(graph, p[i - 1], p[i])
  }

  /** The chain of a valid node is a route from `start` to it. */
  lemma {:induction false} ChainRoute(graph: Graph, start: char, n: Node)
    requires Valid(graph, start, n)
    ensures IsRoute(graph, start, Chain(n))
  {
    match n.parent
    case None =>
    case Some(p) =>
      ChainRoute(graph, start, p);
      var c := Chain(p) + [n];
      forall i | 0 < i < |c|
        ensures Linked(graph, c[i - 1], c[i])
      {
        if i < |c| - 1 {
          assert c[i - 1] == Chain(p)[i - 1] && c[i] == Chain(p)[i];
        }
      }
  }

  /** The sequence reversed, as `path[::-1]`. */
  function Reversed<T>(s: seq<T>): (r: seq<T>)
    ensures |r| == |s|
    ensures forall i :: 0 <= i < |s| ==> r[i] == s[|s| - 1 - i]
  {
    if s == [] then [] else Reversed(s[1..]) + [s[0]]
  }

  /** `Node.path`: walk up the parents collecting nodes, then reverse. The
      result is the chain from the root down to the node. */
  method PathOf(node: Node) returns (p: seq<Node>)
    ensures p == Chain(node)
  {
    var current := node;
    var path := [node];
    while current.parent.Some?
      invariant |path| >= 1 && path[|path| - 1] == current
      invariant Chain(current) + Reversed(path)[1..] == Chain(node)
      decreases current
    {
      var next := current.parent.value;
      assert Reversed(path + [next]) == [next] + Reversed(path);
      assert Reversed(path) == [current] + Reversed(path)[1..];
      current := next;
      path := path + [current];
    }
    assert Reversed(path) == [current] + Reversed(path)[1..];
    p := Reversed(path);
  }

  // ---------------------------------------------------------------------
  // Expansion.

  /** The child for the `j`-th neighbour of `node`. */
  function Child(graph: Graph, node: Node, j: nat, fWeight: real): (c: Node)
    requires GraphOk(graph) && node.state in graph && j < |graph[node.state].neighbors|
    ensures Linked(graph, node, c)
    ensures c.state == graph[node.state].neighbors[j].0 && c.heuristic == graph[c.state].h
    ensures c.totalCost == TotalCost(c.pathCost, c.heuristic, fWeight)
  {
    var nb := graph[node.state].neighbors[j];
    MakeNode(nb.0, Some(node), node.pathCost + nb.1, graph[nb.0].h, fWeight)
  }

  /** What `EXPAND` returns: one child per listed neighbour, in order. */
  function Children(graph: Graph, node: Node, fWeight: real): (r: seq<Node>)
    requires GraphOk(graph) && node.state in graph
    ensures |r| == |graph[node.state].neighbors|
  {
    seq(|graph[node.state].neighbors|, j requires 0 <= j < |graph[node.state].neighbors| => Child(graph, node, j, fWeight))
  }

  /** `EXPAND`: the loop over the neighbours. Every child is linked to
      `node`, carries the heuristic of its state, and is queued by the
      weight the algorithm uses. */
  method Expand(graph: Graph, node: Node, algorithm: string, fWeight: real) returns (successors: seq<Node>)
    requires GraphOk(graph) && node.state in graph
    ensures successors == Children(graph, node, Weight(algorithm, fWeight))
  {
    var neighborData := graph[node.state].neighbors;
    var w := Weight(algorithm, fWeight);
    successors := [];
    for j := 0 to |neighborData|
      invariant successors == Children(graph, node, w)[..j]
    {
      var (neighbor, cost) := neighborData[j];
      var s := MakeNode(neighbor, Some(node), node.pathCost + cost, graph[neighbor].h, w);
      assert s == Children(graph, node, w)[j];
      successors := successors + [s];
    }
  }

  /** Greedy search queues a child by its heuristic value alone; A* with
      weight 1 by path cost plus heuristic. */
  lemma ChildPriority(graph: Graph, node: Node, algorithm: string, fWeight: real, c: Node)
    requires GraphOk(graph) && node.state in graph
    requires c in Children(graph, node, Weight(algorithm, fWeight))
    ensures algorithm != "astar" ==> c.totalCost == c.heuristic as real
    ensures algorithm == "astar" && fWeight == 1.0 ==> c.totalCost == (c.pathCost + c.heuristic) as real
    ensures Linked(graph, node, c) && c.heuristic == graph[c.state].h
  {
  }

  // ---------------------------------------------------------------------
  // The search loop.

  /** A walk from `start` along listed edges that ends in a goal. */
  ghost predicate GoalWalk(graph: Graph, start: char, w: seq<char>) {
    |w| >= 1 && w[0] == start && w[|w| - 1] in GoalStates &&
    forall i :: 0 <= i < |w| - 1 ==> Adjacent(graph, w[i], w[i + 1])
  }

  /** The queue holds valid nodes of states in the table. */
  ghost predicate Queued(graph: Graph, start: char, q: seq<(real, Node)>) {
    forall e :: e in q ==> Valid(graph, start, e.1) && e.1.state in graph && e.0 == e.1.totalCost
  }

  /** The explored states are table states, none a goal, counted once. */
  ghost predicate Counted(graph: Graph, explored: set<char>, expanded: nat) {
    expanded == |explored| && forall x :: x in explored ==> x in graph && x !in GoalStates
  }

  /** Each neighbour of an explored state is explored or queued, and so is
      `start`. */
  ghost predicate Covered(graph: Graph, start: char, q: seq<(real, Node)>, explored: set<char>) {
    (forall x, y :: x in explored && Adjacent(graph, x, y) ==> y in explored || exists e :: e in q && e.1.state == y) &&
    (start in explored || exists e :: e in q && e.1.state == start)
  }

  ghost predicate SearchOk(graph: Graph, start: char, q: seq<(real, Node)>, explored: set<char>, expanded: nat) {
    Queued(graph, start, q) && Counted(graph, explored, expanded) && Covered(graph, start, q, explored)
  }

  /** Popping a node whose state is explored keeps the invariant. */
  lemma {:induction false} SkipTurn(graph: Graph, start: char, q: seq<(real, Node)>, m: nat, explored: set<char>, expanded: nat)
    requires SearchOk(graph, start, q, explored, expanded)
    requires m < |q| && q[m].1.state in explored
    ensures SearchOk(graph, start, MinQueue.Without(q, m), explored, expanded)
  {
    var q2 := MinQueue.Without(q, m);
    MinQueue.WithoutKeeps(q, m);
    forall x, y | x in explored && Adjacent(graph, x, y) && y !in explored
      ensures exists e :: e in q2 && e.1.state == y
    {
      var e :| e in q && e.1.state == y;
      assert e in q2;
    }
    if start !in explored {
      var e :| e in q && e.1.state == start;
      assert e in q2;
    }
  }

  /** The queued children of a valid node are valid. */
  lemma {:induction false} ChildrenQueued(graph: Graph, start: char, q: seq<(real, Node)>, node: Node, w: real)
    requires GraphOk(graph) && node.state in graph && Valid(graph, start, node) && Queued(graph, start, q)
    ensures Queued(graph, start, q + Pairs(Children(graph, node, w)))
  {
    var kids := Children(graph, node, w);
    forall e | e in q + Pairs(kids)
      ensures Valid(graph, start, e.1) && e.1.state in graph && e.0 == e.1.totalCost
    {
      if e !in q {
        var j :| 0 <= j < |kids| && Pairs(kids)[j] == e;
        assert e.1 == Child(graph, node, j, w);
      }
    }
  }

  /** The `(TOTAL_COST, child)` entries the loop pushes. */
  function Pairs(ns: seq<Node>): (r: seq<(real, Node)>)
    ensures |r| == |ns| && forall j :: 0 <= j < |ns| ==> r[j] == (ns[j].totalCost, ns[j])
  {
    seq(|ns|, j requires 0 <= j < |ns| => (ns[j].totalCost, ns[j]))
  }

  /** Expanding a new, non-goal state keeps the invariant, and fewer table
      states are left unexplored. */
  lemma {:induction false} ExpandTurn(graph: Graph, start: char, q: seq<(real, Node)>, m: nat, explored: set<char>, expanded: nat, w: real)
    requires GraphOk(graph) && SearchOk(graph, start, q, explored, expanded)
    requires m < |q| && q[m].1.state !in explored && q[m].1.state !in GoalStates
    ensures var y := q[m].1.state;
            SearchOk(graph, start, MinQueue.Without(q, m) + Pairs(Children(graph, q[m].1, w)), explored + {y}, expanded + 1) &&
            |graph.Keys - (explored + {y})| < |graph.Keys - explored|
  {
    var node := q[m].1;
    var y := node.state;
    var e2 := explored + {y};
    var kids := Pairs(Children(graph, node, w));
    var q1 := MinQueue.Without(q, m);
    var q2 := q1 + kids;
    assert q[m] in q;
    MinQueue.WithoutKeeps(q, m);
    assert Queued(graph, start, q1);
    ChildrenQueued(graph, start, q1, node, w);
    forall x, z | x in e2 && Adjacent(graph, x, z) && z !in e2
      ensures exists e: (real, Node) :: e in q2 && e.1.state == z
    {
      if x == y {
        var j :| 0 <= j < |graph[y].neighbors| && graph[y].neighbors[j].0 == z;
        assert kids[j] in q2;
      } else {
        var e :| e in q && e.1.state == z;
        assert e in q2;
      }
    }
    if start !in e2 {
      var e :| e in q && e.1.state == start;
      assert e in q2;
    }
    assert |e2| == |explored| + 1;
    Seqs.ProperSubsetCard(graph.Keys - e2, graph.Keys - explored);
  }

  /** With the queue empty, every walk from `start` stays among the
      explored states, none of which is a goal. */
  lemma {:induction false} EmptyTurn(graph: Graph, start: char, explored: set<char>, expanded: nat)
    requires SearchOk(graph, start, [], explored, expanded)
    ensures forall w :: !GoalWalk(graph, start, w)
  {
    forall w | GoalWalk(graph, start, w)
      ensures false
    {
      WalkExplored(graph, start, explored, w, |w| - 1);
    }
  }

  lemma {:induction false} WalkExplored(graph: Graph, start: char, explored: set<char>, w: seq<char>, i: nat)
    requires Covered(graph, start, [], explored) && GoalWalk(graph, start, w) && i < |w|
    ensures w[i] in explored
  {
    if i > 0 {
      WalkExplored(graph, start, explored, w, i - 1);
      assert Adjacent(graph, w[i - 1], w[i]);
    }
  }

  /** The loop pushing each child with its priority. */
  method PushAll(queue: seq<(real, Node)>, children: seq<Node>) returns (r: seq<(real, Node)>)
    ensures r == queue + Pairs(children)
  {
    r := queue;
    for k := 0 to |children|
      invariant r == queue + Pairs(children[..k])
    {
      assert Pairs(children[..k + 1]) == Pairs(children[..k]) + [(children[k].totalCost, children[k])];
      r := r + [(children[k].totalCost, children[k])];
    }
    assert children[..|children|] == children;
  }

  /** `INFORMED_SEARCH`: pop the entry of least priority; a goal node
      returns its path; a node of a new state is expanded and all its
      children are queued. A path returned runs from `start` to a goal,
      each node a child of the one before; `None` means no walk from
      `start` reaches a goal. Each state is expanded at most once. */
  method Search(graph: Graph, start: char, algorithm: string, fWeight: real) returns (result: Option<seq<Node>>, expanded: nat, explored: set<char>)
    requires GraphOk(graph) && start in graph
    ensures result.Some? ==> IsRoute(graph, start, result.value) && result.value[|result.value| - 1].state in GoalStates
    ensures result.None? ==> forall w :: !GoalWalk(graph, start, w)
    ensures expanded == |explored| && explored <= graph.Keys
  {
    var w := Weight(algorithm, fWeight);
    var initial := MakeNode(start, None, 0, graph[start].h, w);
    var queue := [(initial.totalCost, initial)];
    explored := {};
    expanded := 0;
    assert queue[0] in queue;
    while queue != []
      invariant SearchOk(graph, start, queue, explored, expanded)
      decreases |graph.Keys - explored|, |queue|
    {
      var entry, rest := MinQueue.PopLeast(queue);
      ghost var m :| 0 <= m < |queue| && entry == queue[m] && rest == MinQueue.Without(queue, m);
      var node := entry.1;
      assert queue[m] in queue;
      if node.state in GoalStates {
        var p := PathOf(node);
        result := Some(p);
        ChainRoute(graph, start, node);
        return;
      }
      if node.state !in explored {
        ExpandTurn(graph, start, queue, m, explored, expanded, w);
        explored := explored + {node.state};
        expanded := expanded + 1;
        var children := Expand(graph, node, algorithm, fWeight);
        queue := PushAll(rest, children);
      } else {
        SkipTurn(graph, start, queue, m, explored, expanded);
        queue := rest;
      }
    }
    EmptyTurn(graph, start, explored, expanded);
    return None, expanded, explored;
  }

  // ---------------------------------------------------------------------
  // The lab's table.

  lemma TableOk()
    ensures GraphOk(Table) && 'A' in Table
  {
  }

  /** A, D, I, L reaches a goal. */
  lemma GoalReachable()
    ensures GoalWalk(Table, 'A', ['A', 'D', 'I', 'L'])
  {
    assert Table['A'].neighbors[2].0 == 'D';
    assert Table['D'].neighbors[1].0 == 'I';
    assert Table['I'].neighbors[0].0 == 'L';
  }

  /** `run_comparison`: greedy best-first and A* from A both find a route
      from A to a goal. */
  method RunComparison() returns (greedy: Option<seq<Node>>, astar: Option<seq<Node>>)
    ensures greedy.Some? && IsRoute(Table, 'A', greedy.value) && greedy.value[|greedy.value| - 1].state in GoalStates
    ensures astar.Some? && IsRoute(Table, 'A', astar.value) && astar.value[|astar.value| - 1].state in GoalStates
  {
    TableOk();
    GoalReachable();
    var n1, e1, n2, e2;
    greedy, n1, e1 := Search(Table, 'A', "greedy", 1.0);
    astar, n2, e2 := Search(Table, 'A', "astar", 1.0);
  }
}
