/** The generic A* search of lab_03/astar_vacuum_cleaner.py. A node keeps
    its state, the actions that led to it and the cost `g` paid so far; the
    frontier holds `(g + h(state), node)` entries and the least one is
    popped. A state is expanded at most once: a node whose state is already
    explored is skipped, and successors already explored are not queued. */
module AStar {
  import opened ExtInt
  import opened Seqs
  import MinQueue

  datatype Node<A, S> = Node(state: S, path: seq<A>, g: nat)

  /** A successor as `successors` lists it: the action, the new state and
      the step cost. */
  type Edge<A, S> = (A, S, nat)

  type Entry<A, S> = (nat, Node<A, S>)

  // ---------------------------------------------------------------------
  // Routes through the state space.

  /** The state reached after the first `i` steps of route `r`. */
  function At<A, S>(start: S, r: seq<Edge<A, S>>, i: nat): S
    requires i <= |r|
  {
    if i == 0 then start else r[i - 1].1
  }

  /** Each step of `r` is listed by `succ` for the state it leaves. */
  ghost predicate RouteOk<A, S>(start: S, r: seq<Edge<A, S>>, succ: S -> seq<Edge<A, S>>) {
    forall i {:trigger At(start, r, i)} :: 0 <= i < |r| ==> r[i] in succ(At(start, r, i))
  }

  /** The cost of the first `i` steps. */
  function CostTo<A, S>(r: seq<Edge<A, S>>, i: nat): nat
    requires i <= |r|
  {
    if i == 0 then 0 else CostTo(r, i - 1) + r[i - 1].2
  }

  /** The actions of a route. */
  function Actions<A, S>(r: seq<Edge<A, S>>): (acts: seq<A>)
    ensures |acts| == |r| && forall i :: 0 <= i < |r| ==> acts[i] == r[i].0
  {
    seq(|r|, i requires 0 <= i < |r| => r[i].0)
  }

  /** The actions `acts` lead from `start` to `t` at cost `g`. */
  ghost predicate Reaches<A(!new), S(!new)>(start: S, acts: seq<A>, t: S, g: nat, succ: S -> seq<Edge<A, S>>) {
    exists r :: RouteOk(start, r, succ) && Actions(r) == acts && At(start, r, |r|) == t && CostTo(r, |r|) == g
  }

  /** A route from `start` to a goal state. */
  ghost predicate GoalRoute<A, S>(start: S, r: seq<Edge<A, S>>, goal: S -> bool, succ: S -> seq<Edge<A, S>>) {
    RouteOk(start, r, succ) && goal(At(start, r, |r|))
  }

  /** `universe` holds `start` and every state a listed step leads to. */
  ghost predicate Closed<A, S>(universe: set<S>, start: S, succ: S -> seq<Edge<A, S>>) {
    start in universe && forall s, e :: s in universe && e in succ(s) ==> e.1 in universe
  }

  /** The heuristic never drops by more than the step cost, and it is zero
      on the goals. */
  ghost predicate Consistent<A, S(!new)>(h: S -> nat, goal: S -> bool, succ: S -> seq<Edge<A, S>>) {
    (forall s, e :: e in succ(s) ==> h(s) <= e.2 + h(e.1)) &&
    (forall s :: goal(s) ==> h(s) == 0)
  }

  /** A consistent heuristic is admissible: from the `j`-th state of a
      goal route it never exceeds the cost of the rest of the route. */
  lemma {:induction false} Admissible<A, S(!new)>(start: S, r: seq<Edge<A, S>>, j: nat, h: S -> nat, goal: S -> bool, succ: S -> seq<Edge<A, S>>)
    requires Consistent(h, goal, succ) && GoalRoute(start, r, goal, succ) && j <= |r|
    ensures CostTo(r, j) + h(At(start, r, j)) <= CostTo(r, |r|)
    decreases |r| - j
  {
    if j < |r| {
      Admissible(start, r, j + 1, h, goal, succ);
      var s, e := At(start, r, j), r[j];
      assert e in succ(s);
      assert h(s) <= e.2 + h(e.1);
      assert At(start, r, j + 1) == e.1 && CostTo(r, j + 1) == CostTo(r, j) + e.2;
    } else {
      assert h(At(start, r, j)) == 0;
    }
  }

  // ---------------------------------------------------------------------
  // The frontier.

  /** The frontier entry of a node: its priority `f = g + h`. */
  function Push<A, S>(node: Node<A, S>, h: S -> nat): (e: Entry<A, S>)
    ensures e.1 == node && e.0 == node.g + h(node.state)
  {
    (node.g + h(node.state), node)
  }

  /** The child of `node` along step `e`: one action longer, `e.2`
      costlier. */
  function Child<A, S>(node: Node<A, S>, e: Edge<A, S>, h: S -> nat): Entry<A, S> {
    Push(Node(e.1, node.path + [e.0], node.g + e.2), h)
  }

  /** The children queued when `node` is expanded: one per listed
      successor whose state is not explored, in order. */
  function Children<A, S>(node: Node<A, S>, es: seq<Edge<A, S>>, explored: set<S>, h: S -> nat): (r: seq<Entry<A, S>>)
    ensures |r| <= |es|
  {
    if es == [] then []
    else
      var last := es[|es| - 1];
      Children(node, es[..|es| - 1], explored, h) + (if last.1 in explored then [] else [Child(node, last, h)])
  }

  /** Each unexplored successor is queued. */
  lemma {:induction false} ChildQueued<A, S>(node: Node<A, S>, es: seq<Edge<A, S>>, explored: set<S>, h: S -> nat, e: Edge<A, S>)
    requires e in es && e.1 !in explored
    ensures Child(node, e, h) in Children(node, es, explored, h)
  {
    var last := es[|es| - 1];
    if e != last {
      assert e in es[..|es| - 1] by {
        var i :| 0 <= i < |es| && es[i] == e;
        assert i < |es| - 1;
        assert es[..|es| - 1][i] == e;
      }
      ChildQueued(node, es[..|es| - 1], explored, h, e);
    }
  }

  /** Each queued child comes from an unexplored successor. */
  lemma {:induction false} ChildSource<A, S>(node: Node<A, S>, es: seq<Edge<A, S>>, explored: set<S>, h: S -> nat, c: Entry<A, S>)
    requires c in Children(node, es, explored, h)
    ensures exists e :: e in es && e.1 !in explored && c == Child(node, e, h)
  {
    var last := es[|es| - 1];
    var init := es[..|es| - 1];
    if c in Children(node, init, explored, h) {
      ChildSource(node, init, explored, h, c);
      var e :| e in init && e.1 !in explored && c == Child(node, e, h);
      assert e in es;
    } else {
      assert last in es && last.1 !in explored && c == Child(node, last, h);
    }
  }

  /** The loop over `successors(current.state)`: pushes the children. */
  method PushChildren<A, S(==)>(frontier: seq<Entry<A, S>>, node: Node<A, S>, es: seq<Edge<A, S>>, explored: set<S>, h: S -> nat)
    returns (r: seq<Entry<A, S>>)
    ensures r == frontier + Children(node, es, explored, h)
  {
    r := frontier;
    for i := 0 to |es|
      invariant r == frontier + Children(node, es[..i], explored, h)
    {
      assert es[..i + 1][..i] == es[..i];
      var e := es[i];
      if e.1 !in explored {
        r := r + [Child(node, e, h)];
      }
    }
    assert es[..|es|] == es;
  }

  // ---------------------------------------------------------------------
  // The loop invariant.

  /** Every entry is a node reached from `start` along its path, with the
      priority `g + h`, inside the universe. */
  ghost predicate Sound<A(!new), S(!new)>(frontier: seq<Entry<A, S>>, start: S, h: S -> nat, succ: S -> seq<Edge<A, S>>, universe: set<S>) {
    forall c :: c in frontier ==>
      c == Push(c.1, h) && c.1.state in universe && Reaches(start, c.1.path, c.1.state, c.1.g, succ)
  }

  /** `level` maps each explored state to the cost at which it was
      expanded; the explored states lie in the universe, none is a goal,
      and each was counted once. */
  ghost predicate Counted<S>(expanded: nat, level: map<S, nat>, goal: S -> bool, universe: set<S>) {
    expanded == |level| && forall x :: x in level ==> x in universe && !goal(x)
  }

  /** Every unexplored successor of an explored state waits on the
      frontier, no costlier than through it; `start` is explored at cost 0
      or waits at cost 0. The explored states are the keys of `level`. */
  ghost predicate Waiting<A, S>(frontier: seq<Entry<A, S>>, level: map<S, nat>, start: S, succ: S -> seq<Edge<A, S>>) {
    (forall x, e :: x in level && e in succ(x) && e.1 !in level ==>
       exists c :: c in frontier && c.1.state == e.1 && c.1.g <= level[x] + e.2) &&
    (start in level ==> level[start] == 0) &&
    (start !in level ==> exists c :: c in frontier && c.1.state == start && c.1.g == 0)
  }

  /** With a consistent heuristic: no explored state's `level + h` exceeds
      a queued priority, and levels are at most one step cost apart. */
  ghost predicate Settled<A, S>(frontier: seq<Entry<A, S>>, level: map<S, nat>, h: S -> nat, succ: S -> seq<Edge<A, S>>) {
    (forall x, c :: x in level && c in frontier ==> level[x] + h(x) <= c.0) &&
    (forall x, e :: x in level && e in succ(x) && e.1 in level ==> level[e.1] <= level[x] + e.2)
  }

  ghost predicate SearchOk<A(!new), S(!new)>(frontier: seq<Entry<A, S>>, expanded: nat, level: map<S, nat>,
                              start: S, goal: S -> bool, succ: S -> seq<Edge<A, S>>, h: S -> nat, universe: set<S>) {
    Sound(frontier, start, h, succ, universe) && Counted(expanded, level, goal, universe) &&
    Waiting(frontier, level, start, succ) &&
    (Consistent(h, goal, succ) ==> Settled(frontier, level, h, succ))
  }

  // ---------------------------------------------------------------------
  // Routes grow one step at a time.

  lemma {:induction false} CostToPrefix<A, S>(r: seq<Edge<A, S>>, e: Edge<A, S>, k: nat)
    requires k <= |r|
    ensures CostTo(r + [e], k) == CostTo(r, k)
  {
    if k > 0 {
      CostToPrefix(r, e, k - 1);
      assert (r + [e])[k - 1] == r[k - 1];
    }
  }

  /** A route grows by a step listed for its last state. */
  lemma {:induction false} RouteExtend<A, S>(start: S, r: seq<Edge<A, S>>, e: Edge<A, S>, succ: S -> seq<Edge<A, S>>)
    requires RouteOk(start, r, succ) && e in succ(At(start, r, |r|))
    ensures RouteOk(start, r + [e], succ)
  {
    var r2 := r + [e];
    forall i | 0 <= i < |r2|
      ensures r2[i] in succ(At(start, r2, i))
    {
      if i < |r| {
        assert r2[i] == r[i];
        assert At(start, r2, i) == At(start, r, i);
      }
    }
  }

  /** One more step adds its action and its cost. */
  lemma {:induction false} StepAdds<A, S>(r: seq<Edge<A, S>>, e: Edge<A, S>)
    ensures CostTo(r + [e], |r| + 1) == CostTo(r, |r|) + e.2
    ensures Actions(r + [e]) == Actions(r) + [e.0]
  {
    CostToPrefix(r, e, |r|);
  }

  /** Following one more listed step from where `acts` lead. */
  lemma {:induction false} ReachesStep<A(!new), S(!new)>(start: S, acts: seq<A>, t: S, g: nat, e: Edge<A, S>, succ: S -> seq<Edge<A, S>>)
    requires Reaches(start, acts, t, g, succ) && e in succ(t)
    ensures Reaches(start, acts + [e.0], e.1, g + e.2, succ)
  {
    var r :| RouteOk(start, r, succ) && Actions(r) == acts && At(start, r, |r|) == t && CostTo(r, |r|) == g;
    RouteExtend(start, r, e, succ);
    StepAdds(r, e);
    var r2 := r + [e];
    assert RouteOk(start, r2, succ) && Actions(r2) == acts + [e.0] && At(start, r2, |r2|) == e.1 && CostTo(r2, |r2|) == g + e.2;
  }

  /** The empty route reaches `start` at no cost. */
  lemma {:induction false} ReachesStart<A(!new), S(!new)>(start: S, succ: S -> seq<Edge<A, S>>)
    ensures Reaches(start, [], start, 0, succ)
  {
    var r: seq<Edge<A, S>> := [];
    assert RouteOk(start, r, succ) && Actions(r) == [];
  }

  /** Some state of a goal route is the first one outside `level`. */
  lemma {:induction false} FirstOutside<A, S>(start: S, r: seq<Edge<A, S>>, level: map<S, nat>, i: nat)
    requires i <= |r| && At(start, r, i) !in level
    ensures exists j :: 0 <= j <= |r| && At(start, r, j) !in level && forall k :: 0 <= k < j ==> At(start, r, k) in level
  {
    if forall k :: 0 <= k < i ==> At(start, r, k) in level {
    } else {
      var k :| 0 <= k < i && At(start, r, k) !in level;
      FirstOutside(start, r, level, k);
    }
  }

  /** Along a route, explored states were expanded no costlier than the
      route reaches them. */
  lemma {:induction false} RouteLevels<A, S>(start: S, r: seq<Edge<A, S>>, level: map<S, nat>, succ: S -> seq<Edge<A, S>>, i: nat)
    requires RouteOk(start, r, succ)
    requires forall x, e :: x in level && e in succ(x) && e.1 in level ==> level[e.1] <= level[x] + e.2
    requires start in level ==> level[start] == 0
    requires i <= |r| && forall k :: 0 <= k <= i ==> At(start, r, k) in level
    ensures level[At(start, r, i)] <= CostTo(r, i)
  {
    if i > 0 {
      RouteLevels(start, r, level, succ, i - 1);
      assert r[i - 1] in succ(At(start, r, i - 1));
    }
  }

  /** Every goal route has a state waiting on the frontier; with a
      consistent heuristic, one reached no costlier than along the route. */
  lemma {:induction false} RouteWitness<A, S>(q: seq<Entry<A, S>>, level: map<S, nat>,
                           start: S, goal: S -> bool, succ: S -> seq<Edge<A, S>>, r: seq<Edge<A, S>>, settled: bool)
    requires Waiting(q, level, start, succ)
    requires forall x :: x in level ==> !goal(x)
    requires settled ==> forall x, e :: x in level && e in succ(x) && e.1 in level ==> level[e.1] <= level[x] + e.2
    requires GoalRoute(start, r, goal, succ)
    ensures exists c, j :: c in q && 0 <= j <= |r| && c.1.state == At(start, r, j) &&
              (settled ==> c.1.g <= CostTo(r, j))
  {
    FirstOutside(start, r, level, |r|);
    var j :| 0 <= j <= |r| && At(start, r, j) !in level && forall k :: 0 <= k < j ==> At(start, r, k) in level;
    if j == 0 {
      var c :| c in q && c.1.state == start && c.1.g == 0;
      assert c.1.state == At(start, r, j) && c.1.g <= CostTo(r, j);
    } else {
      var x, e := At(start, r, j - 1), r[j - 1];
      assert e in succ(x);
      var c :| c in q && c.1.state == e.1 && c.1.g <= level[x] + e.2;
      assert c.1.state == At(start, r, j);
      if settled {
        RouteLevels(start, r, level, succ, j - 1);
        assert CostTo(r, j) == CostTo(r, j - 1) + e.2;
        assert c.1.g <= CostTo(r, j);
      }
    }
  }

  /** With nothing left on the frontier, no route reaches a goal. */
  lemma {:induction false} NoGoalRoute<A(!new), S(!new)>(expanded: nat, level: map<S, nat>,
                             start: S, goal: S -> bool, succ: S -> seq<Edge<A, S>>, h: S -> nat, universe: set<S>)
    requires SearchOk([], expanded, level, start, goal, succ, h, universe)
    ensures forall r :: !GoalRoute(start, r, goal, succ)
  {
    forall r | GoalRoute(start, r, goal, succ)
      ensures false
    {
      RouteWitness([], level, start, goal, succ, r, false);
    }
  }

  /** A goal popped off the frontier was reached along its path, and with
      a consistent heuristic no goal route is cheaper. */
  lemma {:induction false} GoalFound<A(!new), S(!new)>(q: seq<Entry<A, S>>, m: nat, expanded: nat, level: map<S, nat>,
                           start: S, goal: S -> bool, succ: S -> seq<Edge<A, S>>, h: S -> nat, universe: set<S>)
    requires SearchOk(q, expanded, level, start, goal, succ, h, universe)
    requires m < |q| && forall i :: 0 <= i < |q| ==> q[m].0 <= q[i].0
    requires goal(q[m].1.state)
    ensures Reaches(start, q[m].1.path, q[m].1.state, q[m].1.g, succ)
    ensures Consistent(h, goal, succ) ==> forall r :: GoalRoute(start, r, goal, succ) ==> q[m].1.g <= CostTo(r, |r|)
  {
    assert q[m] in q;
    if Consistent(h, goal, succ) {
      forall r | GoalRoute(start, r, goal, succ)
        ensures q[m].1.g <= CostTo(r, |r|)
      {
        RouteWitness(q, level, start, goal, succ, r, true);
        var c, j :| c in q && 0 <= j <= |r| && c.1.state == At(start, r, j) && c.1.g <= CostTo(r, j);
        var i :| 0 <= i < |q| && q[i] == c;
        Admissible(start, r, j, h, goal, succ);
        assert h(q[m].1.state) == 0;
      }
    }
  }

  // ---------------------------------------------------------------------
  // One turn of the loop.

  /** Dropping an entry of an explored state leaves every unexplored
      state waiting. */
  lemma {:induction false} WaitingSkip<A, S>(q: seq<Entry<A, S>>, m: nat, level: map<S, nat>, start: S, succ: S -> seq<Edge<A, S>>)
    requires Waiting(q, level, start, succ) && m < |q| && q[m].1.state in level
    ensures Waiting(MinQueue.Without(q, m), level, start, succ)
  {
    var q2 := MinQueue.Without(q, m);
    MinQueue.WithoutKeeps(q, m);
    forall x, e | x in level && e in succ(x) && e.1 !in level
      ensures exists c :: c in q2 && c.1.state == e.1 && c.1.g <= level[x] + e.2
    {
      var c :| c in q && c.1.state == e.1 && c.1.g <= level[x] + e.2;
      assert c in q2;
    }
    if start !in level {
      var c :| c in q && c.1.state == start && c.1.g == 0;
      assert c in q2;
    }
  }

  /** Popping a node whose state is explored keeps the invariant. */
  lemma {:induction false} SkipStep<A(!new), S(!new)>(q: seq<Entry<A, S>>, m: nat, expanded: nat, level: map<S, nat>,
                          start: S, goal: S -> bool, succ: S -> seq<Edge<A, S>>, h: S -> nat, universe: set<S>)
    requires SearchOk(q, expanded, level, start, goal, succ, h, universe)
    requires m < |q| && q[m].1.state in level
    ensures SearchOk(MinQueue.Without(q, m), expanded, level, start, goal, succ, h, universe)
  {
    MinQueue.WithoutKeeps(q, m);
    WaitingSkip(q, m, level, start, succ);
  }

  /** The children of a sound node are sound. */
  lemma {:induction false} SoundExplore<A(!new), S(!new)>(q: seq<Entry<A, S>>, m: nat, explored: set<S>,
                                       start: S, succ: S -> seq<Edge<A, S>>, h: S -> nat, universe: set<S>)
    requires Sound(q, start, h, succ, universe) && Closed(universe, start, succ) && m < |q|
    ensures Sound(MinQueue.Without(q, m) + Children(q[m].1, succ(q[m].1.state), explored, h), start, h, succ, universe)
  {
    var node := q[m].1;
    assert q[m] in q;
    MinQueue.WithoutKeeps(q, m);
    forall c | c in Children(node, succ(node.state), explored, h)
      ensures c == Push(c.1, h) && c.1.state in universe && Reaches(start, c.1.path, c.1.state, c.1.g, succ)
    {
      ChildSource(node, succ(node.state), explored, h, c);
      var e :| e in succ(node.state) && e.1 !in explored && c == Child(node, e, h);
      ReachesStep(start, node.path, node.state, node.g, e, succ);
    }
  }

  /** Expanding a new state queues its unexplored successors no costlier
      than through it. */
  lemma {:induction false} WaitingExplore<A, S>(q: seq<Entry<A, S>>, m: nat, level: map<S, nat>,
                                                start: S, succ: S -> seq<Edge<A, S>>, h: S -> nat)
    requires Waiting(q, level, start, succ)
    requires m < |q| && q[m].1.state !in level
    requires forall i :: 0 <= i < |q| ==> q[m].0 <= q[i].0
    requires forall c :: c in q ==> c == Push(c.1, h)
    ensures var l2 := level[q[m].1.state := q[m].1.g];
            Waiting(MinQueue.Without(q, m) + Children(q[m].1, succ(q[m].1.state), l2.Keys, h), l2, start, succ)
  {
    var node := q[m].1;
    var l2 := level[node.state := node.g];
    var kids := Children(node, succ(node.state), l2.Keys, h);
    var q2 := MinQueue.Without(q, m) + kids;
    MinQueue.WithoutKeeps(q, m);
    forall x, e | x in l2 && e in succ(x) && e.1 !in l2
      ensures exists c :: c in q2 && c.1.state == e.1 && c.1.g <= l2[x] + e.2
    {
      if x == node.state {
        ChildQueued(node, succ(node.state), l2.Keys, h, e);
        assert Child(node, e, h) in q2;
      } else {
        var c :| c in q && c.1.state == e.1 && c.1.g <= level[x] + e.2;
        assert c in q2;
      }
    }
    if start !in l2 {
      var c :| c in q && c.1.state == start && c.1.g == 0;
      assert c in q2;
    } else if start !in level {
      var c :| c in q && c.1.state == start && c.1.g == 0;
      var i :| 0 <= i < |q| && q[i] == c;
      assert q[m] in q;
    }
  }

  /** With a consistent heuristic, expanding the front keeps levels below
      the queued priorities and at most one step cost apart. */
  lemma {:induction false} SettledExplore<A, S>(q: seq<Entry<A, S>>, m: nat, level: map<S, nat>,
                                                start: S, goal: S -> bool, succ: S -> seq<Edge<A, S>>, h: S -> nat)
    requires forall s, e :: e in succ(s) ==> h(s) <= e.2 + h(e.1)
    requires Waiting(q, level, start, succ) && Settled(q, level, h, succ)
    requires m < |q| && q[m].1.state !in level
    requires forall i :: 0 <= i < |q| ==> q[m].0 <= q[i].0
    requires forall c :: c in q ==> c == Push(c.1, h)
    ensures var l2 := level[q[m].1.state := q[m].1.g];
            Settled(MinQueue.Without(q, m) + Children(q[m].1, succ(q[m].1.state), l2.Keys, h), l2, h, succ)
  {
    var node := q[m].1;
    var y := node.state;
    var l2 := level[y := node.g];
    var kids := Children(node, succ(y), l2.Keys, h);
    var q2 := MinQueue.Without(q, m) + kids;
    MinQueue.WithoutKeeps(q, m);
    assert q[m] in q;
    assert forall c :: c in q ==> q[m].0 <= c.0 by {
      forall c | c in q
        ensures q[m].0 <= c.0
      {
        var i :| 0 <= i < |q| && q[i] == c;
      }
    }
    forall c | c in q2
      ensures q[m].0 <= c.0
    {
      if c !in q {
        ChildSource(node, succ(y), l2.Keys, h, c);
        var e :| e in succ(y) && e.1 !in l2.Keys && c == Child(node, e, h);
        assert h(y) <= e.2 + h(e.1);
      }
    }
    forall x, c | x in l2 && c in q2
      ensures l2[x] + h(x) <= c.0
    {
      if x != y {
        assert level[x] + h(x) <= q[m].0;
      }
    }
    forall x, e | x in l2 && e in succ(x) && e.1 in l2
      ensures l2[e.1] <= l2[x] + e.2
    {
      if e.1 == y && x != y {
        var c :| c in q && c.1.state == y && c.1.g <= level[x] + e.2;
      } else if x == y && e.1 != y {
        assert level[e.1] + h(e.1) <= q[m].0;
        assert h(y) <= e.2 + h(e.1);
      }
    }
  }

  /** Expanding a new state keeps the whole invariant. */
  lemma {:induction false} ExploreStep<A(!new), S(!new)>(q: seq<Entry<A, S>>, m: nat, expanded: nat, level: map<S, nat>,
                                      start: S, goal: S -> bool, succ: S -> seq<Edge<A, S>>, h: S -> nat, universe: set<S>)
    requires Closed(universe, start, succ)
    requires SearchOk(q, expanded, level, start, goal, succ, h, universe)
    requires m < |q| && q[m].1.state !in level && !goal(q[m].1.state)
    requires forall i :: 0 <= i < |q| ==> q[m].0 <= q[i].0
    ensures var l2 := level[q[m].1.state := q[m].1.g];
            SearchOk(MinQueue.Without(q, m) + Children(q[m].1, succ(q[m].1.state), l2.Keys, h), expanded + 1, l2, start, goal, succ, h, universe)
  {
    var y := q[m].1.state;
    var l2 := level[y := q[m].1.g];
    assert q[m] in q;
    SoundExplore(q, m, l2.Keys, start, succ, h, universe);
    WaitingExplore(q, m, level, start, succ, h);
    if Consistent(h, goal, succ) {
      SettledExplore(q, m, level, start, goal, succ, h);
    }
  }

  /** Expanding the state of the front entry, as the loop does it: the
      invariant holds of the new frontier, the explored set grows by that
      state and fewer states of the universe are left. */
  lemma {:induction false} ExploreTurn<A(!new), S(!new)>(q: seq<Entry<A, S>>, m: nat, explored: set<S>, expanded: nat, level: map<S, nat>,
                                      start: S, goal: S -> bool, succ: S -> seq<Edge<A, S>>, h: S -> nat, universe: set<S>)
    requires Closed(universe, start, succ)
    requires SearchOk(q, expanded, level, start, goal, succ, h, universe) && explored == level.Keys
    requires m < |q| && q[m].1.state !in explored && !goal(q[m].1.state)
    requires forall i :: 0 <= i < |q| ==> q[m].0 <= q[i].0
    ensures var y := q[m].1.state;
            SearchOk(MinQueue.Without(q, m) + Children(q[m].1, succ(y), explored + {y}, h), expanded + 1, level[y := q[m].1.g],
                     start, goal, succ, h, universe) &&
            explored + {y} == level[y := q[m].1.g].Keys &&
            |universe - (explored + {y})| < |universe - explored|
  {
    var y := q[m].1.state;
    assert q[m] in q;
    ExploreStep(q, m, expanded, level, start, goal, succ, h, universe);
    assert explored + {y} == level[y := q[m].1.g].Keys;
    ProperSubsetCard(universe - (explored + {y}), universe - explored);
  }

  /** Expanding a goal state, as the loop does it: the answer reaches a
      goal at its cost, and with a consistent heuristic no goal route is
      cheaper; the count of expansions is right. */
  lemma {:induction false} GoalTurn<A(!new), S(!new)>(q: seq<Entry<A, S>>, m: nat, explored: set<S>, expanded: nat, level: map<S, nat>,
                                      start: S, goal: S -> bool, succ: S -> seq<Edge<A, S>>, h: S -> nat, universe: set<S>)
    requires SearchOk(q, expanded, level, start, goal, succ, h, universe) && explored == level.Keys
    requires m < |q| && q[m].1.state !in explored && goal(q[m].1.state)
    requires forall i :: 0 <= i < |q| ==> q[m].0 <= q[i].0
    ensures exists t :: goal(t) && Reaches(start, q[m].1.path, t, q[m].1.g, succ)
    ensures Consistent(h, goal, succ) ==> forall r :: GoalRoute(start, r, goal, succ) ==> q[m].1.g <= CostTo(r, |r|)
    ensures expanded + 1 == |explored + {q[m].1.state}| && explored + {q[m].1.state} <= universe
  {
    assert q[m] in q;
    GoalFound(q, m, expanded, level, start, goal, succ, h, universe);
    assert goal(q[m].1.state) && Reaches(start, q[m].1.path, q[m].1.state, q[m].1.g, succ);
  }

  /** The frontier ran out: no route reaches a goal; the count of
      expansions is right. */
  lemma {:induction false} EmptyTurn<A(!new), S(!new)>(explored: set<S>, expanded: nat, level: map<S, nat>,
                                      start: S, goal: S -> bool, succ: S -> seq<Edge<A, S>>, h: S -> nat, universe: set<S>)
    requires SearchOk([], expanded, level, start, goal, succ, h, universe) && explored == level.Keys
    ensures forall r :: !GoalRoute(start, r, goal, succ)
    ensures expanded == |explored| && explored <= universe
  {
    NoGoalRoute(expanded, level, start, goal, succ, h, universe);
  }

  /** `a_star_search`: pop the entry of least `g + h`; skip it if its state
      is explored; otherwise mark the state explored and count it, return
      its path and cost if it is a goal, and queue its unexplored
      successors. A path returned leads from `start` to a goal at the cost
      returned; with a consistent heuristic no route to a goal is cheaper.
      `([], inf, expanded)` means that no route reaches a goal. Every
      expansion is of a new state, so `expanded` counts distinct states. */
  method Search<A(!new), S(==, !new)>(start: S, goal: S -> bool, succ: S -> seq<Edge<A, S>>, h: S -> nat, ghost universe: set<S>)
    returns (path: seq<A>, cost: EInt, expanded: nat, explored: set<S>)
    requires Closed(universe, start, succ)
    ensures cost.Fin? || cost == PosInf
    ensures cost.Fin? ==> cost.n >= 0 && exists t :: goal(t) && Reaches(start, path, t, cost.n, succ)
    ensures cost.Fin? && Consistent(h, goal, succ) ==> forall r :: GoalRoute(start, r, goal, succ) ==> cost.n <= CostTo(r, |r|)
    ensures cost == PosInf ==> path == [] && forall r :: !GoalRoute(start, r, goal, succ)
    ensures expanded == |explored| && explored <= universe
  {
    var frontier: seq<Entry<A, S>> := [Push(Node(start, [], 0), h)];
    explored := {};
    ghost var level: map<S, nat> := map[];
    expanded := 0;
    ReachesStart(start, succ);
    assert frontier[0] in frontier;
    while frontier != []
      invariant SearchOk(frontier, expanded, level, start, goal, succ, h, universe) && explored == level.Keys
      decreases |universe - explored|, |frontier|
    {
      var entry, rest := MinQueue.PopMin(frontier);
      ghost var m :| 0 <= m < |frontier| && entry == frontier[m] && rest == MinQueue.Without(frontier, m);
      var current := entry.1;
      if current.state in explored {
        SkipStep(frontier, m, expanded, level, start, goal, succ, h, universe);
        frontier := rest;
        continue;
      }
      if goal(current.state) {
        GoalTurn(frontier, m, explored, expanded, level, start, goal, succ, h, universe);
      } else {
        ExploreTurn(frontier, m, explored, expanded, level, start, goal, succ, h, universe);
      }
      explored := explored + {current.state};
      expanded := expanded + 1;
      if goal(current.state) {
        return current.path, Fin(current.g), expanded, explored;
      }
      level := level[current.state := current.g];
      frontier := PushChildren(rest, current, succ(current.state), explored, h);
    }
    EmptyTurn(explored, expanded, level, start, goal, succ, h, universe);
    return [], PosInf, expanded, explored;
  }
}
