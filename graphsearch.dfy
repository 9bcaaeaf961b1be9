/** Breadth-first search with an explored set, as written twice in lab_02:
    for the two-square vacuum world (lab_02/exercise_2.py) and for the
    river crossing (lab_02/homework.py). The two files share every line of
    the search; only the successor function differs, so it is a parameter
    here. */
module GraphSearch {
  import opened Wrappers
  import opened Seqs
  import opened SearchNodes

  /** `INSERT`: rear insert. */
  function Insert<S>(node: Node<S>, queue: seq<Node<S>>): (r: seq<Node<S>>)
    ensures |r| == |queue| + 1 && r[|queue|] == node && r[..|queue|] == queue
  {
    queue + [node]
  }

  /** `INSERT_ALL`: `extend`, keeping the order of the new nodes. */
  function InsertAll<S>(nodes: seq<Node<S>>, queue: seq<Node<S>>): (r: seq<Node<S>>)
    ensures |r| == |queue| + |nodes| && r[..|queue|] == queue && r[|queue|..] == nodes
  {
    queue + nodes
  }

  /** `REMOVE_FIRST`: `pop(0)`. */
  function RemoveFirst<S>(queue: seq<Node<S>>): (r: (Node<S>, seq<Node<S>>))
    requires queue != []
    ensures [r.0] + r.1 == queue
  {
    (queue[0], queue[1..])
  }

  /** The fringe is first-in first-out: nodes come out in the order they
      went in. */
  lemma FifoOrder<S>(queue: seq<Node<S>>, nodes: seq<Node<S>>)
    requires queue != []
    ensures RemoveFirst(InsertAll(nodes, queue)) == (queue[0], InsertAll(nodes, queue[1..]))
  {
    assert (queue + nodes)[1..] == queue[1..] + nodes;
  }

  /** `EXPAND`: a child per successor, in order, one level deeper. */
  function Expand<S>(node: Node<S>, succ: S -> seq<S>): (children: seq<Node<S>>)
    ensures |children| == |succ(node.state)|
    ensures forall i :: 0 <= i < |children| ==>
              children[i].state == succ(node.state)[i] && children[i].parent == Some(node) &&
              children[i].depth == node.depth + 1
  {
    seq(|succ(node.state)|, i requires 0 <= i < |succ(node.state)| => Node(succ(node.state)[i], Some(node), node.depth + 1))
  }

  /** `universe` holds `init` and everything reachable from it. */
  ghost predicate Closed<S>(universe: set<S>, init: S, succ: S -> seq<S>) {
    init in universe && forall s, i :: s in universe && 0 <= i < |succ(s)| ==> succ(s)[i] in universe
  }

  /** The children of a grown node in the universe are grown and in the
      universe. */
  lemma ChildrenGrown<S>(node: Node<S>, init: S, succ: S -> seq<S>, universe: set<S>)
    requires Closed(universe, init, succ)
    requires Grown(node, init, succ) && node.state in universe
    ensures forall n :: n in Expand(node, succ) ==> Grown(n, init, succ) && n.state in universe
  {
    forall n | n in Expand(node, succ)
      ensures Grown(n, init, succ) && n.state in universe
    {
      var i :| 0 <= i < |Expand(node, succ)| && Expand(node, succ)[i] == n;
    }
  }

  /** The nodes on the fringe were grown from `init` inside the universe. */
  ghost predicate FringeOk<S>(fringe: seq<Node<S>>, init: S, succ: S -> seq<S>, universe: set<S>) {
    forall n :: n in fringe ==> Grown(n, init, succ) && n.state in universe
  }

  /** The explored set is the set of expanded states, each expanded once. */
  ghost predicate ExploredOk<S>(explored: set<S>, expanded: seq<S>, universe: set<S>) {
    explored == Elems(expanded) && explored <= universe &&
    forall i, j :: 0 <= i < j < |expanded| ==> expanded[i] != expanded[j]
  }

  /** Exploring a new state keeps the bookkeeping and leaves fewer states
      to explore. */
  lemma ExploreStep<S>(explored: set<S>, expanded: seq<S>, universe: set<S>, s: S)
    requires ExploredOk(explored, expanded, universe) && s in universe && s !in explored
    ensures ExploredOk(explored + {s}, expanded + [s], universe)
    ensures |universe - (explored + {s})| < |universe - explored|
  {
    ProperSubsetCard(universe - (explored + {s}), universe - explored);
    assert Elems(expanded + [s]) == Elems(expanded) + {s};
  }

  /** Popping the front and queueing the children of a grown node keeps
      the fringe grown. */
  lemma FringeStep<S>(node: Node<S>, rest: seq<Node<S>>, init: S, succ: S -> seq<S>, universe: set<S>)
    requires Closed(universe, init, succ)
    requires FringeOk([node] + rest, init, succ, universe)
    ensures Grown(node, init, succ) && node.state in universe
    ensures FringeOk(rest, init, succ, universe)
    ensures FringeOk(InsertAll(Expand(node, succ), rest), init, succ, universe)
  {
    assert node in [node] + rest;
    assert forall n :: n in rest ==> n in [node] + rest;
    ChildrenGrown(node, init, succ, universe);
  }

  // ---------------------------------------------------------------------
  // Breadth first: the fringe holds at most two consecutive depths, in
  // order, and every walk from `init` to `goal` still has a node on the
  // fringe no deeper than the walk is long. That is what makes the first
  // goal popped a shallowest one, and an empty fringe a proof that the
  // goal cannot be reached.

  /** The fringe is in depth order and spans at most two levels. */
  ghost predicate Layered<S>(fringe: seq<Node<S>>) {
    (forall i, k :: 0 <= i < k < |fringe| ==> fringe[i].depth <= fringe[k].depth) &&
    (forall k :: 0 <= k < |fringe| ==> fringe[k].depth <= fringe[0].depth + 1)
  }

  /** `level` holds the depth at which each explored state was expanded:
      never deeper than the fringe, and at most one more than the level of
      any explored state it succeeds. The goal is never explored. */
  ghost predicate Levels<S>(fringe: seq<Node<S>>, explored: set<S>, level: map<S, nat>, goal: S, succ: S -> seq<S>) {
    level.Keys == explored && goal !in explored &&
    (forall x, n :: x in explored && n in fringe ==> level[x] <= n.depth) &&
    (forall x, y :: x in explored && y in explored && y in succ(x) ==> level[y] <= level[x] + 1)
  }

  /** Every unexplored successor of an explored state waits on the fringe
      one level below it, and `init` is explored at level 0 or waits at
      depth 0. */
  ghost predicate Frontier<S>(fringe: seq<Node<S>>, explored: set<S>, level: map<S, nat>, init: S, succ: S -> seq<S>)
    requires level.Keys == explored
  {
    (forall x, y :: x in explored && y in succ(x) && y !in explored ==>
       exists n :: n in fringe && n.state == y && n.depth <= level[x] + 1) &&
    ((init in explored && level[init] == 0) || exists n :: n in fringe && n.state == init && n.depth == 0)
  }

  ghost predicate BfsOk<S>(fringe: seq<Node<S>>, explored: set<S>, level: map<S, nat>, init: S, goal: S, succ: S -> seq<S>) {
    Layered(fringe) && Levels(fringe, explored, level, goal, succ) && Frontier(fringe, explored, level, init, succ)
  }

  /** A walk through the state space from `init` that ends at `goal`. */
  ghost predicate GoalWalk<S>(ss: seq<S>, init: S, goal: S, succ: S -> seq<S>) {
    IsWalk(ss, init, succ) && ss[|ss| - 1] == goal
  }

  /** The front of a layered fringe is a shallowest node. */
  lemma FrontMin<S>(fringe: seq<Node<S>>)
    requires Layered(fringe) && fringe != []
    ensures forall n :: n in fringe ==> fringe[0].depth <= n.depth
  {
    forall n | n in fringe
      ensures fringe[0].depth <= n.depth
    {
      var k :| 0 <= k < |fringe| && fringe[k] == n;
      if k > 0 {
        assert fringe[0].depth <= fringe[k].depth;
      }
    }
  }

  /** Popping the front and queueing its children one level deeper keeps
      the fringe layered. */
  lemma LayeredStep<S>(node: Node<S>, rest: seq<Node<S>>, succ: S -> seq<S>)
    requires Layered([node] + rest)
    ensures Layered(rest)
    ensures Layered(rest + Expand(node, succ))
    ensures forall n :: n in rest + Expand(node, succ) ==> node.depth <= n.depth
  {
    var f := [node] + rest;
    var g := rest + Expand(node, succ);
    assert forall k :: 0 <= k < |rest| ==> rest[k] == f[k + 1];
    forall i, k | 0 <= i < k < |g|
      ensures g[i].depth <= g[k].depth
    {
      if k < |rest| {
        assert g[i] == f[i + 1] && g[k] == f[k + 1];
      } else if i < |rest| {
        assert g[i] == f[i + 1];
      }
    }
    forall k | 0 <= k < |g|
      ensures g[k].depth <= g[0].depth + 1 && node.depth <= g[k].depth
    {
      if k < |rest| {
        assert g[k] == f[k + 1] && g[0] == f[1];
      } else if rest != [] {
        assert g[0] == f[1];
      }
    }
    forall n | n in g
      ensures node.depth <= n.depth
    {
      var k :| 0 <= k < |g| && g[k] == n;
    }
  }

  /** Along a goal walk, the states before the first unexplored one were
      explored no deeper than their place on the walk. */
  lemma {:induction false} WalkLevels<S>(ss: seq<S>, explored: set<S>, level: map<S, nat>, init: S, succ: S -> seq<S>, i: nat)
    requires IsWalk(ss, init, succ) && level.Keys == explored
    requires forall x, y :: x in explored && y in explored && y in succ(x) ==> level[y] <= level[x] + 1
    requires init in explored ==> level[init] == 0
    requires i < |ss| && forall k :: 0 <= k <= i ==> ss[k] in explored
    ensures level[ss[i]] <= i
  {
    if i > 0 {
      WalkLevels(ss, explored, level, init, succ, i - 1);
      assert ss[i] in succ(ss[i - 1]);
    }
  }

  /** Every goal walk has a node on the fringe that is no deeper than the
      walk is long. */
  lemma WalkWitness<S>(ss: seq<S>, fringe: seq<Node<S>>, explored: set<S>, level: map<S, nat>, init: S, goal: S, succ: S -> seq<S>)
    requires BfsOk(fringe, explored, level, init, goal, succ)
    requires GoalWalk(ss, init, goal, succ)
    ensures exists n :: n in fringe && n.depth + 1 <= |ss|
  {
    var j :| 0 <= j < |ss| && ss[j] !in explored && forall k :: 0 <= k < j ==> ss[k] in explored by {
      FirstOutside(ss, explored, |ss| - 1);
    }
    if j == 0 {
      var n :| n in fringe && n.state == init && n.depth == 0;
    } else {
      WalkLevels(ss, explored, level, init, succ, j - 1);
      assert ss[j] in succ(ss[j - 1]);
      var n :| n in fringe && n.state == ss[j] && n.depth <= level[ss[j - 1]] + 1;
    }
  }

  /** Some position up to `i` is the first one outside `e`. */
  lemma {:induction false} FirstOutside<S>(ss: seq<S>, e: set<S>, i: nat)
    requires i < |ss| && ss[i] !in e
    ensures exists j :: 0 <= j < |ss| && ss[j] !in e && forall k :: 0 <= k < j ==> ss[k] in e
  {
    if forall k :: 0 <= k < i ==> ss[k] in e {
    } else {
      var k :| 0 <= k < i && ss[k] !in e;
      FirstOutside(ss, e, k);
    }
  }

  /** Popping a node whose state was already explored keeps the
      bookkeeping. */
  lemma BfsSkip<S>(node: Node<S>, rest: seq<Node<S>>, explored: set<S>, level: map<S, nat>, init: S, goal: S, succ: S -> seq<S>)
    requires BfsOk([node] + rest, explored, level, init, goal, succ)
    requires node.state in explored
    ensures BfsOk(rest, explored, level, init, goal, succ)
  {
    LayeredStep(node, rest, succ);
    assert forall n :: n in rest ==> n in [node] + rest;
    forall x, y | x in explored && y in succ(x) && y !in explored
      ensures exists n :: n in rest && n.state == y && n.depth <= level[x] + 1
    {
      var n :| n in [node] + rest && n.state == y && n.depth <= level[x] + 1;
      assert n != node;
    }
    if init !in explored {
      var n :| n in [node] + rest && n.state == init && n.depth == 0;
      assert n in rest;
    }
  }

  /** Expanding a new state at the depth of the front keeps the levels. */
  lemma LevelsExplore<S>(node: Node<S>, rest: seq<Node<S>>, explored: set<S>, level: map<S, nat>, init: S, goal: S, succ: S -> seq<S>)
    requires BfsOk([node] + rest, explored, level, init, goal, succ)
    requires node.state !in explored && node.state != goal
    ensures Levels(rest + Expand(node, succ), explored + {node.state}, level[node.state := node.depth], goal, succ)
  {
    var f, g := [node] + rest, rest + Expand(node, succ);
    var e, lv := explored + {node.state}, level[node.state := node.depth];
    LayeredStep(node, rest, succ);
    FrontMin(f);
    assert node in f;
    forall x, n | x in e && n in g
      ensures lv[x] <= n.depth
    {
      if x != node.state {
        assert level[x] <= node.depth;
      }
    }
    forall x, y | x in e && y in e && y in succ(x)
      ensures lv[y] <= lv[x] + 1
    {
      if y == node.state && x != node.state {
        var n :| n in f && n.state == y && n.depth <= level[x] + 1;
      } else if x == node.state && y != node.state {
        assert level[y] <= node.depth;
      }
    }
  }

  /** Expanding a new state queues its successors one level below it. */
  lemma FrontierExplore<S>(node: Node<S>, rest: seq<Node<S>>, explored: set<S>, level: map<S, nat>, init: S, goal: S, succ: S -> seq<S>)
    requires BfsOk([node] + rest, explored, level, init, goal, succ)
    requires node.state !in explored
    ensures Frontier(rest + Expand(node, succ), explored + {node.state}, level[node.state := node.depth], init, succ)
  {
    var f, g := [node] + rest, rest + Expand(node, succ);
    var e, lv := explored + {node.state}, level[node.state := node.depth];
    var children := Expand(node, succ);
    FrontMin(f);
    forall x, y | x in e && y in succ(x) && y !in e
      ensures exists n :: n in g && n.state == y && n.depth <= lv[x] + 1
    {
      if x == node.state {
        var i :| 0 <= i < |succ(x)| && succ(x)[i] == y;
        assert children[i] in g;
      } else {
        var n :| n in f && n.state == y && n.depth <= level[x] + 1;
        assert n != node && n in g;
      }
    }
    if init !in e {
      var n :| n in f && n.state == init && n.depth == 0;
      assert n in g;
    } else if init !in explored {
      var n :| n in f && n.state == init && n.depth == 0;
    }
  }

  /** Expanding a new state keeps the breadth-first bookkeeping. */
  lemma BfsExplore<S>(node: Node<S>, rest: seq<Node<S>>, explored: set<S>, level: map<S, nat>, init: S, goal: S, succ: S -> seq<S>)
    requires BfsOk([node] + rest, explored, level, init, goal, succ)
    requires node.state !in explored && node.state != goal
    ensures BfsOk(rest + Expand(node, succ), explored + {node.state}, level[node.state := node.depth], init, goal, succ)
  {
    LayeredStep(node, rest, succ);
    LevelsExplore(node, rest, explored, level, init, goal, succ);
    FrontierExplore(node, rest, explored, level, init, goal, succ);
  }

  /** At the goal: no goal walk is shorter than the path to the front
      node. */
  lemma ShortestAtFront<S>(node: Node<S>, rest: seq<Node<S>>, explored: set<S>, level: map<S, nat>, init: S, goal: S, succ: S -> seq<S>)
    requires BfsOk([node] + rest, explored, level, init, goal, succ)
    ensures forall ss :: GoalWalk(ss, init, goal, succ) ==> node.depth + 1 <= |ss|
  {
    FrontMin([node] + rest);
    forall ss | GoalWalk(ss, init, goal, succ)
      ensures node.depth + 1 <= |ss|
    {
      WalkWitness(ss, [node] + rest, explored, level, init, goal, succ);
    }
  }

  /** With nothing left on the fringe, no walk reaches the goal. */
  lemma NoGoalWalk<S>(explored: set<S>, level: map<S, nat>, init: S, goal: S, succ: S -> seq<S>)
    requires BfsOk([], explored, level, init, goal, succ)
    ensures forall ss :: !GoalWalk(ss, init, goal, succ)
  {
    forall ss | GoalWalk(ss, init, goal, succ)
      ensures false
    {
      WalkWitness(ss, [], explored, level, init, goal, succ);
    }
  }

  /** `TREE_SEARCH`: pop the front node; stop at the goal with its path;
      otherwise, if its state is new, mark it explored and queue its
      children. A path returned is a walk from `init` to `goal` with one
      node per level, and no walk from `init` to `goal` is shorter: the
      search is breadth first. `None` means that no walk reaches the goal.
      No state is expanded twice, so at most as many expansions happen as
      there are reachable states, which is what makes the search end. */
  method Search<S(==)>(init: S, goal: S, succ: S -> seq<S>, ghost universe: set<S>)
    returns (path: Option<seq<Node<S>>>, ghost expanded: seq<S>)
    requires Closed(universe, init, succ)
    ensures path.Some? ==> IsWalk(States(path.value), init, succ)
    ensures path.Some? ==> States(path.value)[|path.value| - 1] == goal
    ensures path.Some? ==> |path.value| == path.value[|path.value| - 1].depth + 1
    ensures path.Some? ==> forall ss :: GoalWalk(ss, init, goal, succ) ==> |path.value| <= |ss|
    ensures path.None? ==> forall ss :: !GoalWalk(ss, init, goal, succ)
    ensures forall i, j :: 0 <= i < j < |expanded| ==> expanded[i] != expanded[j]
    ensures forall i :: 0 <= i < |expanded| ==> expanded[i] in universe
    ensures |expanded| <= |universe|
  {
    var fringe := Insert(Node(init, None, 0), []);
    var explored: set<S> := {};
    ghost var level: map<S, nat> := map[];
    expanded := [];
    assert fringe[0] in fringe;
    while fringe != []
      invariant FringeOk(fringe, init, succ, universe)
      invariant ExploredOk(explored, expanded, universe)
      invariant BfsOk(fringe, explored, level, init, goal, succ)
      decreases |universe - explored|, |fringe|
    {
      var node;
      node, fringe := RemoveFirst(fringe).0, RemoveFirst(fringe).1;
      FringeStep(node, fringe, init, succ, universe);
      if node.state == goal {
        var p := Path(node);
        ChainIsWalk(node, init, succ);
        ShortestAtFront(node, fringe, explored, level, init, goal, succ);
        path := Some(p);
        ExpandedFit(expanded, universe);
        return;
      }
      if node.state !in explored {
        ExploreStep(explored, expanded, universe, node.state);
        BfsExplore(node, fringe, explored, level, init, goal, succ);
        level := level[node.state := node.depth];
        explored := explored + {node.state};
        expanded := expanded + [node.state];
        fringe := InsertAll(Expand(node, succ), fringe);
      } else {
        BfsSkip(node, fringe, explored, level, init, goal, succ);
      }
    }
    path := None;
    NoGoalWalk(explored, level, init, goal, succ);
    ExpandedFit(expanded, universe);
  }

  /** Distinct states of the universe are no more than the universe. */
  lemma ExpandedFit<S>(expanded: seq<S>, universe: set<S>)
    requires ExploredOk(Elems(expanded), expanded, universe)
    ensures forall i :: 0 <= i < |expanded| ==> expanded[i] in universe
    ensures |expanded| <= |universe|
  {
    NoDupIndex(expanded);
    NoDupElemsCard(expanded);
    SubsetCard(Elems(expanded), universe);
  }
}
