/** Single-heap Nim with minimax, as in lab_05/nim_game_minimax.py: the
    state is the number of stones left, a move removes one to
    `MaxRemove` stones, and the player who faces an empty heap has lost. */
module Nim {
  import opened ExtInt

  const MaxRemove: nat := 3
  const StartStones: nat := 15

  /** No stones remain. */
  predicate IsTerminal(n: nat) {
    n == 0
  }

  /** The value of an empty heap: the player to move has lost. */
  function UtilityOf(n: nat, playerMax: bool): int {
    if playerMax then -1 else 1
  }

  /** `min(MAX_REMOVE, n)`: how many moves there are. */
  function Removals(n: nat): nat {
    if n < MaxRemove then n else MaxRemove
  }

  /** `successors_of`: the heaps left after removing 1, 2, ... stones. */
  function Successors(n: nat): (s: seq<nat>)
    ensures |s| == Removals(n)
    ensures forall c :: c in s ==> c < n && n - c <= MaxRemove
  {
    seq(Removals(n), i requires 0 <= i < Removals(n) => n - (i + 1))
  }

  /** The successors are exactly the heaps reachable by one legal move,
      largest first. */
  lemma SuccessorsExact(n: nat, c: nat)
    ensures c in Successors(n) <==> c < n && n - c <= MaxRemove
  {
    if c < n && n - c <= MaxRemove {
      assert Successors(n)[n - c - 1] == c;
    }
  }

  /** Every heap in `cs` is smaller than `n`. */
  predicate Below(cs: seq<nat>, n: nat) {
    forall i :: 0 <= i < |cs| ==> cs[i] < n
  }

  /** `max_value` on values. */
  function MaxVal(n: nat): EInt
    decreases n, 1
  {
    if IsTerminal(n) then Fin(UtilityOf(n, true))
    else MaxOfMins(n, Successors(n))
  }

  /** The loop of `max_value` after visiting the heaps `cs`. */
  function MaxOfMins(n: nat, cs: seq<nat>): EInt
    requires Below(cs, n)
    decreases n, 0, |cs|
  {
    if cs == [] then NegInf
    else Max(MaxOfMins(n, cs[..|cs| - 1]), MinVal(cs[|cs| - 1]))
  }

  /** `min_value` on values. */
  function MinVal(n: nat): EInt
    decreases n, 1
  {
    if IsTerminal(n) then Fin(UtilityOf(n, false))
    else MinOfMaxs(n, Successors(n))
  }

  /** The loop of `min_value` after visiting the heaps `cs`. */
  function MinOfMaxs(n: nat, cs: seq<nat>): EInt
    requires Below(cs, n)
    decreases n, 0, |cs|
  {
    if cs == [] then PosInf
    else Min(MinOfMaxs(n, cs[..|cs| - 1]), MaxVal(cs[|cs| - 1]))
  }

  /** A win (+1) or a loss (-1): Nim has no draws. */
  predicate IsWinLoss(v: EInt) {
    v == Fin(1) || v == Fin(-1)
  }

  /** Over win/loss values, the loop of `max_value` finds a win exactly
      when one of the visited heaps is a win for MAX. */
  lemma {:induction false} MaxOfMinsWins(n: nat, cs: seq<nat>)
    requires Below(cs, n)
    requires forall c :: c in cs ==> IsWinLoss(MinVal(c))
    requires cs != []
    ensures MaxOfMins(n, cs) == if exists c :: c in cs && MinVal(c) == Fin(1) then Fin(1) else Fin(-1)
    decreases |cs|
  {
    var init := cs[..|cs| - 1];
    assert forall c :: c in init ==> c in cs;
    if init != [] {
      MaxOfMinsWins(n, init);
    }
    if exists c :: c in cs && MinVal(c) == Fin(1) {
      var c :| c in cs && MinVal(c) == Fin(1);
      if c != cs[|cs| - 1] {
        assert c in init;
      }
    } else {
      assert forall c :: c in init ==> MinVal(c) != Fin(1);
    }
  }

  /** Over win/loss values, the loop of `min_value` finds a loss exactly
      when one of the visited heaps is a loss for MAX. */
  lemma {:induction false} MinOfMaxsLosses(n: nat, cs: seq<nat>)
    requires Below(cs, n)
    requires forall c :: c in cs ==> IsWinLoss(MaxVal(c))
    requires cs != []
    ensures MinOfMaxs(n, cs) == if exists c :: c in cs && MaxVal(c) == Fin(-1) then Fin(-1) else Fin(1)
    decreases |cs|
  {
    var init := cs[..|cs| - 1];
    assert forall c :: c in init ==> c in cs;
    if init != [] {
      MinOfMaxsLosses(n, init);
    }
    if exists c :: c in cs && MaxVal(c) == Fin(-1) {
      var c :| c in cs && MaxVal(c) == Fin(-1);
      if c != cs[|cs| - 1] {
        assert c in init;
      }
    } else {
      assert forall c :: c in init ==> MaxVal(c) != Fin(-1);
    }
  }

  /** The minimax value of Nim in closed form: the player to move loses
      exactly when the heap is a multiple of `MaxRemove + 1`. In
      particular both values are always +1 or -1. */
  lemma {:induction false} NimValues(n: nat)
    ensures MaxVal(n) == if n % (MaxRemove + 1) == 0 then Fin(-1) else Fin(1)
    ensures MinVal(n) == if n % (MaxRemove + 1) == 0 then Fin(1) else Fin(-1)
    decreases n
  {
    if n > 0 {
      var s := Successors(n);
      forall c | c in s
        ensures MaxVal(c) == (if c % (MaxRemove + 1) == 0 then Fin(-1) else Fin(1))
        ensures MinVal(c) == (if c % (MaxRemove + 1) == 0 then Fin(1) else Fin(-1))
      {
        NimValues(c);
      }
      MaxOfMinsWins(n, s);
      MinOfMaxsLosses(n, s);
      var r := n % (MaxRemove + 1);
      if r == 0 {
        forall c | c in s
          ensures c % (MaxRemove + 1) != 0
        {
          NotMultipleBelow(n, c);
        }
      } else {
        SuccessorsExact(n, n - r);
        LeavesMultiple(n, r);
      }
    }
  }

  /** One more turn of the loop of `max_value`. */
  lemma MaxOfMinsStep(n: nat, cs: seq<nat>, k: nat)
    requires Below(cs, n)
    requires k < |cs|
    ensures MaxOfMins(n, cs[..k + 1]) == Max(MaxOfMins(n, cs[..k]), MinVal(cs[k]))
  {
    assert cs[..k + 1][..k] == cs[..k];
  }

  /** One more turn of the loop of `min_value`. */
  lemma MinOfMaxsStep(n: nat, cs: seq<nat>, k: nat)
    requires Below(cs, n)
    requires k < |cs|
    ensures MinOfMaxs(n, cs[..k + 1]) == Min(MinOfMaxs(n, cs[..k]), MaxVal(cs[k]))
  {
    assert cs[..k + 1][..k] == cs[..k];
  }

  /** `max_value`. */
  method MaxValue(n: nat) returns (v: EInt)
    ensures v == MaxVal(n)
    decreases n, 1
  {
    if IsTerminal(n) {
      return Fin(UtilityOf(n, true));
    }
    v := NegInf;
    var succ := Successors(n);
    for k := 0 to |succ|
      invariant v == MaxOfMins(n, succ[..k])
    {
      assert succ[k] in succ;
      var w := MinValue(succ[k]);
      MaxOfMinsStep(n, succ, k);
      v := Max(v, w);
    }
    assert succ[..|succ|] == succ;
  }

  /** `min_value`. */
  method MinValue(n: nat) returns (v: EInt)
    ensures v == MinVal(n)
    decreases n, 1
  {
    if IsTerminal(n) {
      return Fin(UtilityOf(n, false));
    }
    v := PosInf;
    var succ := Successors(n);
    for k := 0 to |succ|
      invariant v == MinOfMaxs(n, succ[..k])
    {
      assert succ[k] in succ;
      var w := MaxValue(succ[k]);
      MinOfMaxsStep(n, succ, k);
      v := Min(v, w);
    }
    assert succ[..|succ|] == succ;
  }

  /** The dictionary `best_move` builds, as a list indexed by the number
      of stones removed minus one: `min_value` of each heap left. */
  method RemovalValues(n: nat) returns (moves: seq<EInt>)
    ensures |moves| == Removals(n)
    ensures forall k :: 0 <= k < |moves| ==> moves[k] == MinVal(n - (k + 1))
  {
    moves := [];
    for q := 1 to Removals(n) + 1
      invariant |moves| == q - 1
      invariant forall k :: 0 <= k < q - 1 ==> moves[k] == MinVal(n - (k + 1))
    {
      var v := MinValue(n - q);
      moves := moves + [v];
    }
  }

  /** `best_move`: the number of stones to remove whose resulting heap
      has the largest `min_value`, the smallest such number on ties. On an
      empty heap Python's `max` fails, so the heap must not be empty.
      By `NimValues` it is the move that leaves a multiple of
      `MaxRemove + 1` when there is one, and 1 otherwise. */
  method BestMove(n: nat) returns (r: nat)
    requires n > 0
    ensures 1 <= r <= Removals(n)
    ensures forall c :: c in Successors(n) ==> Le(MinVal(c), MinVal(n - r))
    ensures forall c :: c in Successors(n) && c > n - r ==> Lt(MinVal(c), MinVal(n - r))
    ensures r == PerfectRemoval(n)
  {
    var moves := RemovalValues(n);
    var i := FirstMax(moves);
    r := i + 1;
    MovesChoice(n, moves, i);
    BestMoveIsPerfect(n, r);
  }

  /** The removal at the index `max` picks among the keys leaves the heap
      with the largest `min_value`, and every smaller removal leaves a
      strictly smaller one. */
  lemma MovesChoice(n: nat, moves: seq<EInt>, i: nat)
    requires |moves| == Removals(n) && i < |moves|
    requires forall k :: 0 <= k < |moves| ==> moves[k] == MinVal(n - (k + 1))
    requires forall k :: 0 <= k < |moves| ==> Le(moves[k], moves[i])
    requires forall k :: 0 <= k < i ==> Lt(moves[k], moves[i])
    ensures forall c :: c in Successors(n) ==> Le(MinVal(c), MinVal(n - (i + 1)))
    ensures forall c :: c in Successors(n) && c > n - (i + 1) ==> Lt(MinVal(c), MinVal(n - (i + 1)))
  {
    forall c | c in Successors(n)
      ensures Le(MinVal(c), moves[i])
      ensures c > n - (i + 1) ==> Lt(MinVal(c), moves[i])
    {
      assert moves[n - c - 1] == MinVal(c);
    }
  }

  /** Any removal with the two properties `best_move` guarantees is the
      perfect one. */
  lemma BestMoveIsPerfect(n: nat, r: nat)
    requires n > 0 && 1 <= r <= Removals(n)
    requires forall c :: c in Successors(n) ==> Le(MinVal(c), MinVal(n - r))
    requires forall c :: c in Successors(n) && c > n - r ==> Lt(MinVal(c), MinVal(n - r))
    ensures r == PerfectRemoval(n)
  {
    SuccessorsExact(n, n - PerfectRemoval(n));
    SuccessorsExact(n, n - 1);
    BestMoveWins(n, r);
  }

  /** From a multiple of `MaxRemove + 1`, no move reaches another. */
  lemma NotMultipleBelow(n: nat, c: nat)
    requires n % (MaxRemove + 1) == 0
    requires c < n && n - c <= MaxRemove
    ensures c % (MaxRemove + 1) != 0
  {
    LeavesMultiple(n, n - c);
  }

  /** Removing `r` stones leaves a multiple of `MaxRemove + 1` exactly
      when `r` is the remainder of the heap. */
  lemma LeavesMultiple(n: nat, r: nat)
    requires 1 <= r <= MaxRemove && r <= n
    ensures (n - r) % (MaxRemove + 1) == 0 <==> r == n % (MaxRemove + 1)
  {
    var q := n / (MaxRemove + 1);
    assert n == (MaxRemove + 1) * q + n % (MaxRemove + 1);
    if r <= n % (MaxRemove + 1) {
      assert n - r == (MaxRemove + 1) * q + (n % (MaxRemove + 1) - r);
    } else {
      assert n - r == (MaxRemove + 1) * (q - 1) + (MaxRemove + 1 + n % (MaxRemove + 1) - r);
    }
  }

  /** The number of stones the perfect player removes: the remainder of
      the heap modulo `MaxRemove + 1`, or 1 when there is none. */
  function PerfectRemoval(n: nat): nat {
    if n % (MaxRemove + 1) == 0 then 1 else n % (MaxRemove + 1)
  }

  /** A removal `r` that is no worse than `PerfectRemoval(n)`, and
      strictly better than removing one stone if it removes more, is
      `PerfectRemoval(n)`. */
  lemma BestMoveWins(n: nat, r: nat)
    requires n > 0 && 1 <= r <= Removals(n)
    requires Le(MinVal(n - PerfectRemoval(n)), MinVal(n - r))
    requires r > 1 ==> Lt(MinVal(n - 1), MinVal(n - r))
    ensures r == PerfectRemoval(n)
  {
    if n % (MaxRemove + 1) == 0 {
      if r > 1 {
        LosingHeapMoves(n, r);
      }
    } else {
      WinningHeapMove(n, r);
    }
  }

  /** From a multiple of `MaxRemove + 1` every move loses, so no larger
      removal is strictly better than removing one stone. */
  lemma LosingHeapMoves(n: nat, r: nat)
    requires n % (MaxRemove + 1) == 0
    requires 1 < r <= Removals(n)
    ensures !Lt(MinVal(n - 1), MinVal(n - r))
  {
    NimValues(n - r);
    LeavesMultiple(n, r);
    NimValues(n - 1);
    LeavesMultiple(n, 1);
  }

  /** From any other heap, only the perfect removal wins. */
  lemma WinningHeapMove(n: nat, r: nat)
    requires n % (MaxRemove + 1) != 0
    requires 1 <= r <= Removals(n)
    requires Le(MinVal(n - PerfectRemoval(n)), MinVal(n - r))
    ensures r == PerfectRemoval(n)
  {
    var m := n % (MaxRemove + 1);
    NimValues(n - r);
    LeavesMultiple(n, r);
    LeavesMultiple(n, m);
    NimValues(n - m);
    assert MinVal(n - r) == Fin(1);
  }

  /** `nim_successors`: (stones removed, heap left) pairs for the
      alpha-beta engine. */
  function NimSuccessors(n: nat): (s: seq<(nat, nat)>)
    ensures |s| == |Successors(n)|
    ensures forall i :: 0 <= i < |s| ==> s[i].1 == Successors(n)[i] && s[i].0 + s[i].1 == n && 1 <= s[i].0 <= MaxRemove
  {
    seq(Removals(n), i requires 0 <= i < Removals(n) => (i + 1, n - (i + 1)))
  }

  /** `nim_utility`: the value of a terminal heap for MAX to move. */
  function NimUtility(n: nat): (u: int)
    ensures u == -1
  {
    UtilityOf(n, true)
  }
}
