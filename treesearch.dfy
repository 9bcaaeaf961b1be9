/** Tree search over the letter graph of lab_02/search.py. The fringe
    order decides the strategy: inserting at the front makes a stack
    (depth-first), at the rear a queue (breadth-first). There is no
    explored set; the graph is a tree, so the search ends. */
module TreeSearch {
  import opened Wrappers
  import opened SearchNodes

  datatype Strategy = DFS | BFS

  /** `STRATEGY`: the setting the file ships with. */
  const Setting := BFS

  /** `STATE_SPACE`: the letters A to J. */
  const StateSpace: map<char, seq<char>> :=
    map['A' := ['B', 'C'], 'B' := ['D', 'E'], 'C' := ['F', 'G'],
        'D' := [], 'E' := [], 'F' := [],
        'G' := ['H', 'I', 'J'], 'H' := [], 'I' := [], 'J' := []]

  const Initial := 'A'
  const Goal := 'J'

  /** `successor_fn`: the listed successors. Every state the search meets
      is a key (see `SuccessorsClosed`), so the missing-key case, a
      KeyError in the source, never arises; it yields no successors here. */
  function Successors(s: char): seq<char> {
    if s in StateSpace then StateSpace[s] else []
  }

  /** The graph is closed: the initial state and all successors are keys. */
  lemma SuccessorsClosed(s: char, i: nat)
    requires s in StateSpace && i < |Successors(s)|
    ensures Initial in StateSpace && Successors(s)[i] in StateSpace
  {
  }

  // ---------------------------------------------------------------------
  // The fringe.

  /** `INSERT`: at the front under DFS, at the rear otherwise. */
  function Insert(node: Node<char>, queue: seq<Node<char>>, strategy: Strategy): (r: seq<Node<char>>)
    ensures |r| == |queue| + 1 && node in r
    ensures strategy == DFS ==> r[0] == node && r[1..] == queue
    ensures strategy == BFS ==> r[|queue|] == node && r[..|queue|] == queue
  {
    if strategy == DFS then [node] + queue else queue + [node]
  }

  /** `REMOVE_FIRST`: `pop(0)` returns the front and leaves the rest in
      order. */
  function RemoveFirst(queue: seq<Node<char>>): (r: (Node<char>, seq<Node<char>>))
    requires queue != []
    ensures [r.0] + r.1 == queue
  {
    (queue[0], queue[1..])
  }

  /** Under DFS the fringe is a stack: the node just inserted comes out
      first. */
  lemma StackOrder(node: Node<char>, queue: seq<Node<char>>)
    ensures RemoveFirst(Insert(node, queue, DFS)) == (node, queue)
  {
  }

  /** Under BFS the fringe is a queue: inserting at the rear does not change
      which node comes out first, and the last one in comes out last. */
  lemma QueueOrder(node: Node<char>, queue: seq<Node<char>>)
    ensures queue != [] ==> RemoveFirst(Insert(node, queue, BFS)) == (queue[0], queue[1..] + [node])
    ensures queue == [] ==> RemoveFirst(Insert(node, queue, BFS)) == (node, [])
  {
    if queue != [] {
      assert (queue + [node])[1..] == queue[1..] + [node];
    }
  }

  /** `INSERT_ALL`: inserts the nodes one by one. Under BFS they end up at
      the rear in order; under DFS at the front in reverse order. */
  method InsertAll(nodes: seq<Node<char>>, queue: seq<Node<char>>, strategy: Strategy) returns (r: seq<Node<char>>)
    ensures strategy == BFS ==> r == queue + nodes
    ensures strategy == DFS ==> r == Reversed(nodes) + queue
  {
    r := queue;
    for i := 0 to |nodes|
      invariant strategy == BFS ==> r == queue + nodes[..i]
      invariant strategy == DFS ==> r == Reversed(nodes[..i]) + queue
    {
      assert nodes[..i + 1] == nodes[..i] + [nodes[i]];
      assert Reversed(nodes[..i + 1]) == [nodes[i]] + Reversed(nodes[..i]);
      r := Insert(nodes[i], r, strategy);
    }
    assert nodes[..|nodes|] == nodes;
  }

  /** `EXPAND`: one child per successor, in order, each pointing back to
      `node` one level deeper. */
  method Expand(node: Node<char>) returns (children: seq<Node<char>>)
    ensures |children| == |Successors(node.state)|
    ensures forall i :: 0 <= i < |children| ==>
              children[i] == Node(Successors(node.state)[i], Some(node), node.depth + 1)
  {
    children := [];
    var succ := Successors(node.state);
    for i := 0 to |succ|
      invariant |children| == i
      invariant forall j :: 0 <= j < i ==> children[j] == Node(succ[j], Some(node), node.depth + 1)
    {
      children := children + [Node(succ[i], Some(node), node.depth + 1)];
    }
  }

  // ---------------------------------------------------------------------
  // Termination: each expansion trades a node for its children, and the
  // subtrees below the fringe shrink by one node.

  /** The height of a letter in the tree. */
  function Rank(s: char): nat {
    if s == 'A' then 3 else if s == 'C' then 2 else if s == 'B' || s == 'G' then 1 else 0
  }

  lemma RankDrops(s: char, i: nat)
    requires i < |Successors(s)|
    ensures Rank(Successors(s)[i]) < Rank(s)
  {
  }

  /** The number of nodes in the subtree below `s`. */
  function SubtreeSize(s: char): (n: nat)
    ensures n >= 1
    decreases Rank(s), 1
  {
    1 + ChildrenSize(s, |Successors(s)|)
  }

  /** The subtree sizes of the first `k` children of `s`. */
  function ChildrenSize(s: char, k: nat): nat
    requires k <= |Successors(s)|
    decreases Rank(s), 0, k
  {
    if k == 0 then 0
    else
      RankDrops(s, k - 1);
      ChildrenSize(s, k - 1) + SubtreeSize(Successors(s)[k - 1])
  }

  /** What is left to search below the fringe. */
  function Weight(fringe: seq<Node<char>>): nat {
    if fringe == [] then 0 else Weight(fringe[..|fringe| - 1]) + SubtreeSize(fringe[|fringe| - 1].state)
  }

  lemma {:induction false} WeightAppend(a: seq<Node<char>>, b: seq<Node<char>>)
    ensures Weight(a + b) == Weight(a) + Weight(b)
    decreases |b|
  {
    if b == [] {
      assert a + b == a;
    } else {
      assert (a + b)[..|a + b| - 1] == a + b[..|b| - 1];
      WeightAppend(a, b[..|b| - 1]);
    }
  }

  lemma {:induction false} WeightReversed(a: seq<Node<char>>)
    ensures Weight(Reversed(a)) == Weight(a)
  {
    if a != [] {
      var last := a[|a| - 1];
      assert Reversed(a) == [last] + Reversed(a[..|a| - 1]);
      WeightReversed(a[..|a| - 1]);
      WeightAppend([last], Reversed(a[..|a| - 1]));
      assert Weight([last]) == SubtreeSize(last.state) by {
        assert [last][..0] == [];
      }
    }
  }

  /** The children of a node weigh one less than the node. */
  lemma {:induction false} ChildrenWeight(node: Node<char>, children: seq<Node<char>>, k: nat)
    requires k <= |children| == |Successors(node.state)|
    requires forall i :: 0 <= i < |children| ==> children[i].state == Successors(node.state)[i]
    ensures Weight(children[..k]) == ChildrenSize(node.state, k)
  {
    if k > 0 {
      assert children[..k][..k - 1] == children[..k - 1];
      ChildrenWeight(node, children, k - 1);
    }
  }

  /** Replacing a node by its children lightens the fringe, in either
      insertion order. */
  lemma FringeShrinks(node: Node<char>, rest: seq<Node<char>>, children: seq<Node<char>>, strategy: Strategy)
    requires |children| == |Successors(node.state)|
    requires forall i :: 0 <= i < |children| ==> children[i].state == Successors(node.state)[i]
    ensures Weight(if strategy == BFS then rest + children else Reversed(children) + rest) < Weight([node] + rest)
  {
    WeightAppend([node], rest);
    assert Weight([node]) == SubtreeSize(node.state) by {
      assert [node][..0] == [];
    }
    ChildrenWeight(node, children, |children|);
    assert children[..|children|] == children;
    if strategy == BFS {
      WeightAppend(rest, children);
    } else {
      WeightReversed(children);
      WeightAppend(Reversed(children), rest);
    }
  }

  /** The children of a grown node are grown, so the whole new fringe is. */
  lemma ChildrenGrown(node: Node<char>, rest: seq<Node<char>>, children: seq<Node<char>>, strategy: Strategy)
    requires Grown(node, Initial, Successors)
    requires forall n :: n in rest ==> Grown(n, Initial, Successors)
    requires |children| == |Successors(node.state)|
    requires forall i :: 0 <= i < |children| ==>
               children[i] == Node(Successors(node.state)[i], Some(node), node.depth + 1)
    ensures forall n :: n in (if strategy == BFS then rest + children else Reversed(children) + rest) ==>
              Grown(n, Initial, Successors)
  {
    forall n | n in children
      ensures Grown(n, Initial, Successors)
    {
      var i :| 0 <= i < |children| && children[i] == n;
    }
    if strategy == DFS {
      forall n | n in Reversed(children)
        ensures n in children
      {
        var i :| 0 <= i < |children| && Reversed(children)[i] == n;
        assert children[|children| - 1 - i] == n;
      }
    }
  }

  /** `TREE_SEARCH`: pop the front node; stop at the goal with its path;
      otherwise insert its children. A path returned is a walk through
      `STATE_SPACE` from A to J with one node per level. */
  method Search(strategy: Strategy) returns (path: Option<seq<Node<char>>>)
    ensures path.Some? ==> IsWalk(States(path.value), Initial, Successors)
    ensures path.Some? ==> States(path.value)[|path.value| - 1] == Goal
    ensures path.Some? ==> |path.value| == path.value[|path.value| - 1].depth + 1
  {
    var fringe := Insert(Node(Initial, None, 0), [], strategy);
    while fringe != []
      invariant forall n :: n in fringe ==> Grown(n, Initial, Successors)
      decreases Weight(fringe)
    {
      var node;
      ghost var before := fringe;
      node, fringe := RemoveFirst(fringe).0, RemoveFirst(fringe).1;
      assert before == [node] + fringe;
      if node.state == Goal {
        var p := Path(node);
        ChainIsWalk(node, Initial, Successors);
        return Some(p);
      }
      var children := Expand(node);
      ghost var rest := fringe;
      fringe := InsertAll(children, fringe, strategy);
      FringeShrinks(node, rest, children, strategy);
      ChildrenGrown(node, rest, children, strategy);
    }
    return None;
  }
}
