/** The generic alpha-beta engine of lab_05/alpha_beta.py. The game is
    passed in as callbacks; the search may be cut off at a depth, where an
    evaluation function (or the utility) scores the position.

    The engine is proved against plain minimax over the same callbacks:
    every inner call returns a fail-soft bound of the minimax value for
    its window, and each root child, searched with the full window, gets
    exactly its minimax value. */
module AlphaBeta {
  import opened Wrappers
  import opened ExtInt

  /** The callbacks and options of `alpha_beta_search`. */
  datatype Game<!S, A> = Game(
    successors: S -> seq<(A, S)>,
    isTerminal: S -> bool,
    utility: S -> EInt,
    maxDepth: Option<int>,
    evalFn: Option<S -> EInt>)

  /** `max_depth is not None and depth >= max_depth`. */
  predicate Cutoff<S(!new), A>(g: Game<S, A>, depth: nat) {
    g.maxDepth.Some? && depth >= g.maxDepth.value
  }

  /** The search stops at `s`: it is terminal or too deep. */
  predicate Stops<S(!new), A>(g: Game<S, A>, s: S, depth: nat) {
    g.isTerminal(s) || Cutoff(g, depth)
  }

  /** The score of a position where the search stops: the utility of a
      terminal state, otherwise `(eval_fn or utility)(s)`. */
  function Leaf<S(!new), A>(g: Game<S, A>, s: S): EInt {
    if g.isTerminal(s) then g.utility(s)
    else if g.evalFn.Some? then g.evalFn.value(s)
    else g.utility(s)
  }

  /** Without a depth limit the search ends only if the game tree is
      finite: `rank` drops along every move out of a non-terminal state. */
  ghost predicate Finite<S(!new), A>(g: Game<S, A>, rank: S -> nat) {
    g.maxDepth.Some? ||
    forall s, i :: !g.isTerminal(s) && 0 <= i < |g.successors(s)| ==>
      rank(g.successors(s)[i].1) < rank(s)
  }

  /** What is left of the search below `s` at `depth`. */
  ghost function Measure<S(!new), A>(g: Game<S, A>, rank: S -> nat, s: S, depth: nat): nat {
    if g.maxDepth.Some? then
      (if depth >= g.maxDepth.value then 0 else g.maxDepth.value - depth)
    else rank(s)
  }

  lemma ChildSmaller<S(!new), A>(g: Game<S, A>, rank: S -> nat, s: S, depth: nat, i: nat)
    requires Finite(g, rank) && !Stops(g, s, depth) && i < |g.successors(s)|
    ensures Measure(g, rank, g.successors(s)[i].1, depth + 1) < Measure(g, rank, s, depth)
  {
  }

  // ---------------------------------------------------------------------
  // Plain minimax over the same callbacks: the reference.
  // ---------------------------------------------------------------------

  ghost function MaxMM<S(!new), A>(g: Game<S, A>, rank: S -> nat, s: S, depth: nat): EInt
    requires Finite(g, rank)
    decreases Measure(g, rank, s, depth), 1
  {
    if Stops(g, s, depth) then Leaf(g, s)
    else MaxPrefix(g, rank, s, depth, |g.successors(s)|)
  }

  /** The largest minimax value among the first `n` children. */
  ghost function MaxPrefix<S(!new), A>(g: Game<S, A>, rank: S -> nat, s: S, depth: nat, n: nat): EInt
    requires Finite(g, rank) && !Stops(g, s, depth) && n <= |g.successors(s)|
    decreases Measure(g, rank, s, depth), 0, n
  {
    if n == 0 then NegInf
    else
      ChildSmaller(g, rank, s, depth, n - 1);
      Max(MaxPrefix(g, rank, s, depth, n - 1), MinMM(g, rank, g.successors(s)[n - 1].1, depth + 1))
  }

  ghost function MinMM<S(!new), A>(g: Game<S, A>, rank: S -> nat, s: S, depth: nat): EInt
    requires Finite(g, rank)
    decreases Measure(g, rank, s, depth), 1
  {
    if Stops(g, s, depth) then Leaf(g, s)
    else MinPrefix(g, rank, s, depth, |g.successors(s)|)
  }

  /** The smallest minimax value among the first `n` children. */
  ghost function MinPrefix<S(!new), A>(g: Game<S, A>, rank: S -> nat, s: S, depth: nat, n: nat): EInt
    requires Finite(g, rank) && !Stops(g, s, depth) && n <= |g.successors(s)|
    decreases Measure(g, rank, s, depth), 0, n
  {
    if n == 0 then PosInf
    else
      ChildSmaller(g, rank, s, depth, n - 1);
      Min(MinPrefix(g, rank, s, depth, n - 1), MaxMM(g, rank, g.successors(s)[n - 1].1, depth + 1))
  }

  lemma {:induction false} MaxPrefixGrows<S(!new), A>(g: Game<S, A>, rank: S -> nat, s: S, depth: nat, j: nat, k: nat)
    requires Finite(g, rank) && !Stops(g, s, depth) && j <= k <= |g.successors(s)|
    ensures Le(MaxPrefix(g, rank, s, depth, j), MaxPrefix(g, rank, s, depth, k))
    decreases k
  {
    if j < k {
      MaxPrefixGrows(g, rank, s, depth, j, k - 1);
    }
  }

  lemma {:induction false} MinPrefixShrinks<S(!new), A>(g: Game<S, A>, rank: S -> nat, s: S, depth: nat, j: nat, k: nat)
    requires Finite(g, rank) && !Stops(g, s, depth) && j <= k <= |g.successors(s)|
    ensures Le(MinPrefix(g, rank, s, depth, k), MinPrefix(g, rank, s, depth, j))
    decreases k
  {
    if j < k {
      MinPrefixShrinks(g, rank, s, depth, j, k - 1);
    }
  }

  // ---------------------------------------------------------------------
  // Alpha-beta, on values: the inner functions and their loops.
  // ---------------------------------------------------------------------

  /** The inner `max_value`. */
  ghost function ABMax<S(!new), A>(g: Game<S, A>, rank: S -> nat, s: S, alpha: EInt, beta: EInt, depth: nat): EInt
    requires Finite(g, rank)
    decreases Measure(g, rank, s, depth), 1
  {
    if Stops(g, s, depth) then Leaf(g, s)
    else ABMaxLoop(g, rank, s, depth, 0, NegInf, alpha, beta)
  }

  /** The loop of `max_value` from child `i` on, with `v` and `alpha` as
      the loop left them; it stops at the first beta cut. */
  ghost function ABMaxLoop<S(!new), A>(g: Game<S, A>, rank: S -> nat, s: S, depth: nat, i: nat, v: EInt, alpha: EInt, beta: EInt): EInt
    requires Finite(g, rank) && !Stops(g, s, depth) && i <= |g.successors(s)|
    decreases Measure(g, rank, s, depth), 0, |g.successors(s)| - i
  {
    if i == |g.successors(s)| then v
    else
      ChildSmaller(g, rank, s, depth, i);
      var v' := Max(v, ABMin(g, rank, g.successors(s)[i].1, alpha, beta, depth + 1));
      if Le(beta, v') then v'
      else ABMaxLoop(g, rank, s, depth, i + 1, v', Max(alpha, v'), beta)
  }

  /** The inner `min_value`. */
  ghost function ABMin<S(!new), A>(g: Game<S, A>, rank: S -> nat, s: S, alpha: EInt, beta: EInt, depth: nat): EInt
    requires Finite(g, rank)
    decreases Measure(g, rank, s, depth), 1
  {
    if Stops(g, s, depth) then Leaf(g, s)
    else ABMinLoop(g, rank, s, depth, 0, PosInf, alpha, beta)
  }

  /** The loop of `min_value` from child `i` on; it stops at the first
      alpha cut. */
  ghost function ABMinLoop<S(!new), A>(g: Game<S, A>, rank: S -> nat, s: S, depth: nat, i: nat, v: EInt, alpha: EInt, beta: EInt): EInt
    requires Finite(g, rank) && !Stops(g, s, depth) && i <= |g.successors(s)|
    decreases Measure(g, rank, s, depth), 0, |g.successors(s)| - i
  {
    if i == |g.successors(s)| then v
    else
      ChildSmaller(g, rank, s, depth, i);
      var v' := Min(v, ABMax(g, rank, g.successors(s)[i].1, alpha, beta, depth + 1));
      if Le(v', alpha) then v'
      else ABMinLoop(g, rank, s, depth, i + 1, v', alpha, Min(beta, v'))
  }

  // ---------------------------------------------------------------------
  // Soundness: alpha-beta returns a fail-soft bound of minimax.
  // ---------------------------------------------------------------------

  /** `r` is what a fail-soft search with window (alpha, beta) may return
      for a position whose minimax value is `m`: an upper bound of `m` when
      it fails low, a lower bound when it fails high, and `m` itself
      inside the window. */
  predicate FailSoft(r: EInt, m: EInt, alpha: EInt, beta: EInt) {
    (Le(r, alpha) ==> Le(m, r)) &&
    (Le(beta, r) ==> Le(r, m)) &&
    (Lt(alpha, r) && Lt(r, beta) ==> r == m)
  }

  /** Searched with the full window, the result is the minimax value. */
  lemma FullWindowExact(r: EInt, m: EInt)
    requires FailSoft(r, m, NegInf, PosInf)
    ensures r == m
  {
  }

  /** One turn of the loop of `max_value`, on values: `mp` is the minimax
      value of the children seen so far, `r` the result for the next child
      and `m` its minimax value. A beta cut returns a lower bound of `m`;
      otherwise the loop's invariant carries over. */
  lemma MaxStep(alpha0: EInt, alpha: EInt, beta: EInt, v: EInt, mp: EInt, r: EInt, m: EInt)
    requires Lt(alpha0, beta) && Lt(v, beta) && alpha == Max(alpha0, v)
    requires Le(mp, v) && (Lt(alpha0, v) ==> mp == v)
    requires FailSoft(r, m, alpha, beta)
    ensures Le(beta, Max(v, r)) ==> Le(Max(v, r), m)
    ensures !Le(beta, Max(v, r)) ==>
              Lt(Max(v, r), beta) && Max(alpha, Max(v, r)) == Max(alpha0, Max(v, r)) &&
              Le(Max(mp, m), Max(v, r)) && (Lt(alpha0, Max(v, r)) ==> Max(mp, m) == Max(v, r))
  {
  }

  /** One turn of the loop of `min_value`, on values. */
  lemma MinStep(beta0: EInt, alpha: EInt, beta: EInt, v: EInt, mp: EInt, r: EInt, m: EInt)
    requires Lt(alpha, beta0) && Lt(alpha, v) && beta == Min(beta0, v)
    requires Le(v, mp) && (Lt(v, beta0) ==> mp == v)
    requires FailSoft(r, m, alpha, beta)
    ensures Le(Min(v, r), alpha) ==> Le(m, Min(v, r))
    ensures !Le(Min(v, r), alpha) ==>
              Lt(alpha, Min(v, r)) && Min(beta, Min(v, r)) == Min(beta0, Min(v, r)) &&
              Le(Min(v, r), Min(mp, m)) && (Lt(Min(v, r), beta0) ==> Min(mp, m) == Min(v, r))
  {
  }

  /** A beta cut of `max_value` is fail-soft: the cut value is at least
      beta and a lower bound of the node's value `mm`. */
  lemma MaxCut(alpha0: EInt, beta: EInt, v': EInt, m: EInt, mm: EInt)
    requires Lt(alpha0, beta) && Le(beta, v') && Le(v', m) && Le(m, mm)
    ensures FailSoft(v', mm, alpha0, beta)
  {
  }

  /** A loop of `max_value` that ran to the end is fail-soft. */
  lemma MaxEnd(alpha0: EInt, beta: EInt, v: EInt, mm: EInt)
    requires Lt(v, beta) && Le(mm, v) && (Lt(alpha0, v) ==> mm == v)
    ensures FailSoft(v, mm, alpha0, beta)
  {
  }

  /** An alpha cut of `min_value` is fail-soft. */
  lemma MinCut(alpha: EInt, beta0: EInt, v': EInt, m: EInt, mm: EInt)
    requires Lt(alpha, beta0) && Le(v', alpha) && Le(m, v') && Le(mm, m)
    ensures FailSoft(v', mm, alpha, beta0)
  {
  }

  /** A loop of `min_value` that ran to the end is fail-soft. */
  lemma MinEnd(alpha: EInt, beta0: EInt, v: EInt, mm: EInt)
    requires Lt(alpha, v) && Le(v, mm) && (Lt(v, beta0) ==> mm == v)
    ensures FailSoft(v, mm, alpha, beta0)
  {
  }

  lemma ABMaxSound<S(!new), A>(g: Game<S, A>, rank: S -> nat, s: S, alpha: EInt, beta: EInt, depth: nat)
    requires Finite(g, rank) && Lt(alpha, beta)
    ensures FailSoft(ABMax(g, rank, s, alpha, beta, depth), MaxMM(g, rank, s, depth), alpha, beta)
    decreases Measure(g, rank, s, depth), 1
  {
    if !Stops(g, s, depth) {
      ABMaxLoopSound(g, rank, s, depth, 0, NegInf, alpha, alpha, beta);
    }
  }

  /** The loop of `max_value` keeps: `v` bounds the minimax value of the
      children seen so far from above, and equals it once it exceeds the
      original alpha. */
  lemma {:induction false} ABMaxLoopSound<S(!new), A>(g: Game<S, A>, rank: S -> nat, s: S, depth: nat, i: nat,
                                                v: EInt, alpha0: EInt, alpha: EInt, beta: EInt)
    requires Finite(g, rank) && !Stops(g, s, depth) && i <= |g.successors(s)|
    requires Lt(alpha0, beta) && Lt(v, beta) && alpha == Max(alpha0, v)
    requires Le(MaxPrefix(g, rank, s, depth, i), v)
    requires Lt(alpha0, v) ==> MaxPrefix(g, rank, s, depth, i) == v
    ensures FailSoft(ABMaxLoop(g, rank, s, depth, i, v, alpha, beta),
                     MaxPrefix(g, rank, s, depth, |g.successors(s)|), alpha0, beta)
    decreases Measure(g, rank, s, depth), 0, |g.successors(s)| - i
  {
    if i < |g.successors(s)| {
      ChildSmaller(g, rank, s, depth, i);
      var child := g.successors(s)[i].1;
      var r := ABMin(g, rank, child, alpha, beta, depth + 1);
      ABMinSound(g, rank, child, alpha, beta, depth + 1);
      var v' := Max(v, r);
      MaxStep(alpha0, alpha, beta, v, MaxPrefix(g, rank, s, depth, i), r, MinMM(g, rank, child, depth + 1));
      assert MaxPrefix(g, rank, s, depth, i + 1) == Max(MaxPrefix(g, rank, s, depth, i), MinMM(g, rank, child, depth + 1));
      if Le(beta, v') {
        assert ABMaxLoop(g, rank, s, depth, i, v, alpha, beta) == v';
        MaxPrefixGrows(g, rank, s, depth, i + 1, |g.successors(s)|);
        MaxCut(alpha0, beta, v', MaxPrefix(g, rank, s, depth, i + 1), MaxPrefix(g, rank, s, depth, |g.successors(s)|));
      } else {
        assert ABMaxLoop(g, rank, s, depth, i, v, alpha, beta) == ABMaxLoop(g, rank, s, depth, i + 1, v', Max(alpha, v'), beta);
        ABMaxLoopSound(g, rank, s, depth, i + 1, v', alpha0, Max(alpha, v'), beta);
      }
    } else {
      MaxEnd(alpha0, beta, v, MaxPrefix(g, rank, s, depth, i));
    }
  }

  lemma ABMinSound<S(!new), A>(g: Game<S, A>, rank: S -> nat, s: S, alpha: EInt, beta: EInt, depth: nat)
    requires Finite(g, rank) && Lt(alpha, beta)
    ensures FailSoft(ABMin(g, rank, s, alpha, beta, depth), MinMM(g, rank, s, depth), alpha, beta)
    decreases Measure(g, rank, s, depth), 1
  {
    if !Stops(g, s, depth) {
      ABMinLoopSound(g, rank, s, depth, 0, PosInf, beta, alpha, beta);
    }
  }

  /** The loop of `min_value` keeps: `v` bounds the minimax value of the
      children seen so far from below, and equals it once it is under the
      original beta. */
  lemma {:induction false} ABMinLoopSound<S(!new), A>(g: Game<S, A>, rank: S -> nat, s: S, depth: nat, i: nat,
                                                v: EInt, beta0: EInt, alpha: EInt, beta: EInt)
    requires Finite(g, rank) && !Stops(g, s, depth) && i <= |g.successors(s)|
    requires Lt(alpha, beta0) && Lt(alpha, v) && beta == Min(beta0, v)
    requires Le(v, MinPrefix(g, rank, s, depth, i))
    requires Lt(v, beta0) ==> MinPrefix(g, rank, s, depth, i) == v
    ensures FailSoft(ABMinLoop(g, rank, s, depth, i, v, alpha, beta),
                     MinPrefix(g, rank, s, depth, |g.successors(s)|), alpha, beta0)
    decreases Measure(g, rank, s, depth), 0, |g.successors(s)| - i
  {
    if i < |g.successors(s)| {
      ChildSmaller(g, rank, s, depth, i);
      var child := g.successors(s)[i].1;
      var r := ABMax(g, rank, child, alpha, beta, depth + 1);
      ABMaxSound(g, rank, child, alpha, beta, depth + 1);
      var v' := Min(v, r);
      MinStep(beta0, alpha, beta, v, MinPrefix(g, rank, s, depth, i), r, MaxMM(g, rank, child, depth + 1));
      assert MinPrefix(g, rank, s, depth, i + 1) == Min(MinPrefix(g, rank, s, depth, i), MaxMM(g, rank, child, depth + 1));
      if Le(v', alpha) {
        assert ABMinLoop(g, rank, s, depth, i, v, alpha, beta) == v';
        MinPrefixShrinks(g, rank, s, depth, i + 1, |g.successors(s)|);
        MinCut(alpha, beta0, v', MinPrefix(g, rank, s, depth, i + 1), MinPrefix(g, rank, s, depth, |g.successors(s)|));
      } else {
        assert ABMinLoop(g, rank, s, depth, i, v, alpha, beta) == ABMinLoop(g, rank, s, depth, i + 1, v', alpha, Min(beta, v'));
        ABMinLoopSound(g, rank, s, depth, i + 1, v', beta0, alpha, Min(beta, v'));
      }
    } else {
      MinEnd(alpha, beta0, v, MinPrefix(g, rank, s, depth, i));
    }
  }

  // ---------------------------------------------------------------------
  // The engine.
  // ---------------------------------------------------------------------

  /** `max_value`: alpha only grows inside the loop. */
  method MaxValue<S(!new), A>(g: Game<S, A>, ghost rank: S -> nat, s: S, alpha0: EInt, beta: EInt, depth: nat)
    returns (v: EInt)
    requires Finite(g, rank)
    ensures v == ABMax(g, rank, s, alpha0, beta, depth)
    decreases Measure(g, rank, s, depth), 1
  {
    if g.isTerminal(s) {
      return g.utility(s);
    }
    if g.maxDepth.Some? && depth >= g.maxDepth.value {
      return if g.evalFn.Some? then g.evalFn.value(s) else g.utility(s);
    }
    v := NegInf;
    var alpha := alpha0;
    var cs := g.successors(s);
    var i := 0;
    while i < |cs|
      invariant i <= |cs|
      invariant ABMaxLoop(g, rank, s, depth, i, v, alpha, beta) == ABMax(g, rank, s, alpha0, beta, depth)
      invariant Le(alpha0, alpha)
    {
      ChildSmaller(g, rank, s, depth, i);
      var w := MinValue(g, rank, cs[i].1, alpha, beta, depth + 1);
      v := Max(v, w);
      if Le(beta, v) {
        return v;
      }
      alpha := Max(alpha, v);
      i := i + 1;
    }
  }

  /** `min_value`: beta only shrinks inside the loop. */
  method MinValue<S(!new), A>(g: Game<S, A>, ghost rank: S -> nat, s: S, alpha: EInt, beta0: EInt, depth: nat)
    returns (v: EInt)
    requires Finite(g, rank)
    ensures v == ABMin(g, rank, s, alpha, beta0, depth)
    decreases Measure(g, rank, s, depth), 1
  {
    if g.isTerminal(s) {
      return g.utility(s);
    }
    if g.maxDepth.Some? && depth >= g.maxDepth.value {
      return if g.evalFn.Some? then g.evalFn.value(s) else g.utility(s);
    }
    v := PosInf;
    var beta := beta0;
    var cs := g.successors(s);
    var i := 0;
    while i < |cs|
      invariant i <= |cs|
      invariant ABMinLoop(g, rank, s, depth, i, v, alpha, beta) == ABMin(g, rank, s, alpha, beta0, depth)
      invariant Le(beta, beta0)
    {
      ChildSmaller(g, rank, s, depth, i);
      var w := MaxValue(g, rank, cs[i].1, alpha, beta, depth + 1);
      v := Min(v, w);
      if Le(v, alpha) {
        return v;
      }
      beta := Min(beta, v);
      i := i + 1;
    }
  }

  /** The minimax value of root child `j` for the player at the root,
      searched at depth 1. */
  ghost function ChildValue<S(!new), A>(g: Game<S, A>, rank: S -> nat, state: S, maximizing: bool, j: nat): EInt
    requires Finite(g, rank) && j < |g.successors(state)|
    decreases Measure(g, rank, state, 0), 2
  {
    if maximizing then MinMM(g, rank, g.successors(state)[j].1, 1)
    else MaxMM(g, rank, g.successors(state)[j].1, 1)
  }

  /** `val` is strictly better than `best` for the player at the root. */
  predicate Better(maximizing: bool, val: EInt, best: EInt) {
    if maximizing then Lt(best, val) else Lt(val, best)
  }

  /** The value the root loop starts from. */
  function Initial(maximizing: bool): EInt {
    if maximizing then NegInf else PosInf
  }

  /** One root child, searched with the full window (-inf, +inf) at
      depth 1, gets exactly its minimax value. */
  method RootChild<S(!new), A>(g: Game<S, A>, ghost rank: S -> nat, state: S, maximizing: bool, j: nat)
    returns (val: EInt)
    requires Finite(g, rank) && j < |g.successors(state)|
    ensures val == ChildValue(g, rank, state, maximizing, j)
  {
    var child := g.successors(state)[j].1;
    if maximizing {
      val := MinValue(g, rank, child, NegInf, PosInf, 1);
      ABMinSound(g, rank, child, NegInf, PosInf, 1);
    } else {
      val := MaxValue(g, rank, child, NegInf, PosInf, 1);
      ABMaxSound(g, rank, child, NegInf, PosInf, 1);
    }
  }

  /** `alpha_beta_search`: the first root move whose minimax value is
      strictly better than those of all earlier moves and no worse than any
      move, with that value; no move and the starting infinity when no
      move improves on it (in particular when there is no move, but also
      when every move has the worst value, the starting infinity). */
  method AlphaBetaSearch<S(!new), A>(g: Game<S, A>, ghost rank: S -> nat, state: S, maximizing: bool)
    returns (bestAction: Option<A>, bestVal: EInt)
    requires Finite(g, rank)
    ensures forall j :: 0 <= j < |g.successors(state)| ==>
              !Better(maximizing, ChildValue(g, rank, state, maximizing, j), bestVal)
    ensures bestAction.None? ==> bestVal == Initial(maximizing)
    ensures bestAction.Some? ==> Better(maximizing, bestVal, Initial(maximizing))
    ensures bestAction.Some? ==>
              exists k :: 0 <= k < |g.successors(state)| && bestAction.value == g.successors(state)[k].0 &&
                bestVal == ChildValue(g, rank, state, maximizing, k) &&
                forall j :: 0 <= j < k ==> Better(maximizing, bestVal, ChildValue(g, rank, state, maximizing, j))
  {
    bestAction := None;
    bestVal := Initial(maximizing);
    var cs := g.successors(state);
    ghost var k := 0;
    for i := 0 to |cs|
      invariant forall j :: 0 <= j < i ==> !Better(maximizing, ChildValue(g, rank, state, maximizing, j), bestVal)
      invariant bestAction.None? ==> bestVal == Initial(maximizing)
      invariant bestAction.Some? ==> Better(maximizing, bestVal, Initial(maximizing))
      invariant bestAction.Some? ==>
                  k < i && bestAction.value == cs[k].0 && bestVal == ChildValue(g, rank, state, maximizing, k) &&
                  forall j :: 0 <= j < k ==> Better(maximizing, bestVal, ChildValue(g, rank, state, maximizing, j))
    {
      var val := RootChild(g, rank, state, maximizing, i);
      if Better(maximizing, val, bestVal) {
        bestVal, bestAction := val, Some(cs[i].0);
        k := i;
      }
    }
  }
}
