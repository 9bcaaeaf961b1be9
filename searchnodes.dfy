/** The search-tree node shared by the uninformed searches of lab_02: a
    state, the node it was expanded from and its depth, and the path from
    the root that the parent links spell out. */
module SearchNodes {
  import opened Wrappers

  /** `Node(state, parent, depth)`. A node is never changed after it is
      built, so it is a value; the parent link makes it a chain back to
      the root. */
  datatype Node<S> = Node(state: S, parent: Option<Node<S>>, depth: nat)

  function Reversed<T>(s: seq<T>): (r: seq<T>)
    ensures |r| == |s|
    ensures forall i :: 0 <= i < |s| ==> r[i] == s[|s| - 1 - i]
  {
    if s == [] then [] else [s[|s| - 1]] + Reversed(s[..|s| - 1])
  }

  /** The nodes from the root down to `n`. */
  function Chain<S>(n: Node<S>): (p: seq<Node<S>>)
    ensures |p| >= 1 && p[|p| - 1] == n && p[0].parent.None?
    ensures forall i :: 0 <= i < |p| - 1 ==> p[i + 1].parent == Some(p[i])
  {
    match n.parent
    case None => [n]
    case Some(q) => Chain(q) + [n]
  }

  /** `Node.path`: follow the parent links up to the root, collecting the
      nodes, then reverse them. */
  method Path<S>(n: Node<S>) returns (p: seq<Node<S>>)
    ensures p == Chain(n)
  {
    var cur := Some(n);
    var acc := [];
    while cur.Some?
      invariant Chain(n) == (if cur.Some? then Chain(cur.value) else []) + Reversed(acc)
      decreases cur
    {
      assert Reversed(acc + [cur.value]) == [cur.value] + Reversed(acc);
      acc := acc + [cur.value];
      cur := cur.value.parent;
    }
    p := Reversed(acc);
  }

  /** The states along a list of nodes. */
  function States<S>(p: seq<Node<S>>): (ss: seq<S>)
    ensures |ss| == |p|
    ensures forall i :: 0 <= i < |p| ==> ss[i] == p[i].state
  {
    if p == [] then [] else States(p[..|p| - 1]) + [p[|p| - 1].state]
  }

  /** A node built by the searches: the root holds `init` at depth 0, and
      every other node holds a successor of its parent's state, one level
      deeper. */
  ghost predicate Grown<S>(n: Node<S>, init: S, succ: S -> seq<S>) {
    match n.parent
    case None => n.state == init && n.depth == 0
    case Some(q) => n.state in succ(q.state) && n.depth == q.depth + 1 && Grown(q, init, succ)
  }

  /** A walk through the state space: it starts at `init` and each state
      is a successor of the one before. */
  ghost predicate IsWalk<S>(ss: seq<S>, init: S, succ: S -> seq<S>) {
    |ss| >= 1 && ss[0] == init &&
    forall i :: 0 <= i < |ss| - 1 ==> ss[i + 1] in succ(ss[i])
  }

  /** The path of a grown node is a walk from `init` to the node's state,
      with one node per level: its length is the depth plus one. */
  lemma {:induction false} ChainIsWalk<S>(n: Node<S>, init: S, succ: S -> seq<S>)
    requires Grown(n, init, succ)
    ensures IsWalk(States(Chain(n)), init, succ)
    ensures States(Chain(n))[|Chain(n)| - 1] == n.state
    ensures |Chain(n)| == n.depth + 1
  {
    match n.parent
    case None =>
    case Some(q) =>
      ChainIsWalk(q, init, succ);
      var ss, sq := States(Chain(n)), States(Chain(q));
      assert ss == sq + [n.state];
      forall i | 0 <= i < |ss| - 1
        ensures ss[i + 1] in succ(ss[i])
      {
        if i < |sq| - 1 {
          assert ss[i] == sq[i] && ss[i + 1] == sq[i + 1];
        }
      }
  }
}
