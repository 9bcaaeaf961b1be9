/** Tic-tac-toe with full minimax, as in lab_05/tictactoe_template.py.
    The board is a list of nine squares; an empty square holds its own
    index, an occupied one the mark of a player. X (MAX) moves first. */
module TicTacToe {
  import opened Wrappers
  import opened ExtInt

  datatype Player = X | O

  /** A square: empty (labelled by an integer) or marked by a player. */
  datatype Cell = Free(index: int) | Mark(p: Player)

  type Board = b: seq<Cell> | |b| == 9
    witness [Free(0), Free(1), Free(2), Free(3), Free(4), Free(5), Free(6), Free(7), Free(8)]

  /** A row, column or diagonal, by square indices. */
  type Line = (nat, nat, nat)

  const WinLines: seq<Line> := [
    (0, 1, 2), (3, 4, 5), (6, 7, 8),
    (0, 3, 6), (1, 4, 7), (2, 5, 8),
    (0, 4, 8), (2, 4, 6)]

  /** The three squares of `line` hold the same mark. */
  predicate Complete(b: Board, line: Line) {
    line.0 < 9 && line.1 < 9 && line.2 < 9
    && b[line.0] == b[line.1] == b[line.2] && b[line.0].Mark?
  }

  /** The loop of `winner` over `lines`: the mark of the first complete
      line. */
  function WinnerOf(b: Board, lines: seq<Line>): Option<Player> {
    if lines == [] then None
    else if Complete(b, lines[0]) then Some(b[lines[0].0].p)
    else WinnerOf(b, lines[1..])
  }

  function Winner(b: Board): Option<Player> {
    WinnerOf(b, WinLines)
  }

  /** `winner` finds nothing exactly when no line is complete. */
  lemma {:induction false} NoWinner(b: Board, lines: seq<Line>)
    ensures WinnerOf(b, lines).None? <==> forall k :: 0 <= k < |lines| ==> !Complete(b, lines[k])
  {
    if lines != [] {
      NoWinner(b, lines[1..]);
      if !Complete(b, lines[0]) {
        forall k | 0 <= k < |lines| && k > 0
          ensures lines[k] == lines[1..][k - 1]
        {
        }
      }
    }
  }

  /** `winner` returns the mark of the first complete line. */
  lemma {:induction false} WinnerIsFirstLine(b: Board, lines: seq<Line>, k: nat)
    requires k < |lines| && Complete(b, lines[k])
    requires forall j :: 0 <= j < k ==> !Complete(b, lines[j])
    ensures WinnerOf(b, lines) == Some(b[lines[k].0].p)
  {
    if k > 0 {
      assert !Complete(b, lines[0]);
      forall j | 0 <= j < k - 1
        ensures !Complete(b, lines[1..][j])
      {
        assert lines[1..][j] == lines[j + 1];
      }
      WinnerIsFirstLine(b, lines[1..], k - 1);
    }
  }

  /** The game is over: someone won, or every square is marked. */
  predicate IsTerminal(b: Board) {
    Winner(b).Some? || forall i :: 0 <= i < 9 ==> b[i].Mark?
  }

  /** +1 for a win of X, -1 for a win of O, 0 otherwise. */
  function UtilityOf(b: Board): int {
    match Winner(b)
    case Some(X) => 1
    case Some(O) => -1
    case None => 0
  }

  /** The utility is decided by the lines: 0 exactly when no line is
      complete, and otherwise the sign of the mark of the first complete
      line. */
  lemma UtilityFromLines(b: Board, k: nat)
    requires k < |WinLines| && Complete(b, WinLines[k])
    requires forall j :: 0 <= j < k ==> !Complete(b, WinLines[j])
    ensures UtilityOf(b) == (if b[WinLines[k].0] == Mark(X) then 1 else -1)
  {
    WinnerIsFirstLine(b, WinLines, k);
  }

  lemma UtilityZero(b: Board)
    ensures UtilityOf(b) == 0 <==> forall k :: 0 <= k < |WinLines| ==> !Complete(b, WinLines[k])
  {
    NoWinner(b, WinLines);
  }

  /** Number of squares holding the mark of `p`. */
  function Marks(s: seq<Cell>, p: Player): nat {
    if s == [] then 0 else (if s[0] == Mark(p) then 1 else 0) + Marks(s[1..], p)
  }

  /** Number of empty squares. */
  function FreeCount(s: seq<Cell>): nat {
    if s == [] then 0 else (if s[0].Free? then 1 else 0) + FreeCount(s[1..])
  }

  /** X moves when both players have made as many moves, O otherwise. */
  function ToMove(b: Board): Player {
    if Marks(b, X) == Marks(b, O) then X else O
  }

  /** A successor: the square marked and the board after the move. */
  datatype Move = Move(square: nat, board: Board)

  /** The successors for the squares below `n`: one move per empty
      square, in index order. */
  function SuccessorsUpTo(b: Board, p: Player, n: nat): seq<Move>
    requires n <= |b|
  {
    if n == 0 then []
    else SuccessorsUpTo(b, p, n - 1) + (if b[n - 1].Free? then [Move(n - 1, b[n - 1 := Mark(p)])] else [])
  }

  function Successors(b: Board): seq<Move> {
    SuccessorsUpTo(b, ToMove(b), |b|)
  }

  /** `successors_of`: copies the board once per empty square. */
  method SuccessorsOf(state: Board) returns (succ: seq<Move>)
    ensures succ == Successors(state)
  {
    var nX := Marks(state, X);
    var nO := Marks(state, O);
    var player := if nX == nO then X else O;
    succ := [];
    for idx := 0 to |state|
      invariant succ == SuccessorsUpTo(state, player, idx)
    {
      if state[idx].Free? {
        var newState := state[idx := Mark(player)];
        succ := succ + [Move(idx, newState)];
      }
    }
  }

  /** Every move in `s` is an empty square below `hi`, and its board is
      `b` with that square marked by `p` and nothing else changed. */
  predicate MarksFree(b: Board, p: Player, s: seq<Move>, hi: nat) {
    forall m :: m in s ==> m.square < hi && m.square < 9 && b[m.square].Free? && m.board == b[m.square := Mark(p)]
  }

  /** The moves of `s` increase strictly. */
  predicate Increasing(s: seq<Move>) {
    forall k, l :: 0 <= k < l < |s| ==> s[k].square < s[l].square
  }

  /** Every empty square below `hi` has its successor in `s`. */
  predicate CoversFree(b: Board, p: Player, s: seq<Move>, hi: nat) {
    forall j :: 0 <= j < hi && j < 9 && b[j].Free? ==> Move(j, b[j := Mark(p)]) in s
  }

  lemma {:induction false} SuccessorsUpToSpec(b: Board, p: Player, n: nat)
    requires n <= |b|
    ensures MarksFree(b, p, SuccessorsUpTo(b, p, n), n)
    ensures Increasing(SuccessorsUpTo(b, p, n))
    ensures CoversFree(b, p, SuccessorsUpTo(b, p, n), n)
  {
    if n > 0 {
      SuccessorsUpToSpec(b, p, n - 1);
      var t := SuccessorsUpTo(b, p, n - 1);
      var h: seq<Move> := if b[n - 1].Free? then [Move(n - 1, b[n - 1 := Mark(p)])] else [];
      var s := t + h;
      assert SuccessorsUpTo(b, p, n) == s;
      forall m | m in s
        ensures m.square < n && m.square < 9 && b[m.square].Free? && m.board == b[m.square := Mark(p)]
      {
        if m !in h {
          assert m in t;
        }
      }
      forall k, l | 0 <= k < l < |s|
        ensures s[k].square < s[l].square
      {
        assert s[k] == t[k];
        assert s[k] in t;
        if l < |t| {
          assert s[l] == t[l];
        }
      }
      forall j | 0 <= j < n && j < 9 && b[j].Free?
        ensures Move(j, b[j := Mark(p)]) in s
      {
        if j < n - 1 {
          assert Move(j, b[j := Mark(p)]) in t;
        } else {
          assert s[|t|] == Move(j, b[j := Mark(p)]);
        }
      }
    }
  }

  /** Each successor marks one empty square for the player to move and
      changes nothing else; the moves increase strictly, and every empty
      square has its successor. */
  lemma SuccessorsSpec(b: Board)
    ensures MarksFree(b, ToMove(b), Successors(b), 9)
    ensures Increasing(Successors(b))
    ensures CoversFree(b, ToMove(b), Successors(b), 9)
  {
    SuccessorsUpToSpec(b, ToMove(b), |b|);
  }

  /** Marking an empty square leaves one empty square fewer. */
  lemma {:induction false} FreeCountMark(s: seq<Cell>, i: nat, p: Player)
    requires i < |s| && s[i].Free?
    ensures FreeCount(s[i := Mark(p)]) == FreeCount(s) - 1
  {
    if i > 0 {
      FreeCountMark(s[1..], i - 1, p);
      assert s[i := Mark(p)][1..] == s[1..][i - 1 := Mark(p)];
    }
  }

  /** Every successor has fewer empty squares: the game tree is finite. */
  lemma SuccessorsFewer(b: Board)
    ensures forall m :: m in Successors(b) ==> FreeCount(m.board) < FreeCount(b)
  {
    SuccessorsSpec(b);
    forall m | m in Successors(b)
      ensures FreeCount(m.board) < FreeCount(b)
    {
      FreeCountMark(b, m.square, ToMove(b));
    }
  }

  /** A position that is not over has a move. */
  lemma NonTerminalMoves(b: Board)
    requires !IsTerminal(b)
    ensures Successors(b) != []
  {
    var i :| 0 <= i < 9 && !b[i].Mark?;
    SuccessorsSpec(b);
    assert Move(i, b[i := Mark(ToMove(b))]) in Successors(b);
  }

  /** `max_value` on values. */
  function MaxVal(b: Board): EInt
    decreases FreeCount(b), 1
  {
    if IsTerminal(b) then Fin(UtilityOf(b))
    else
      SuccessorsFewer(b);
      MaxOfMins(b, Successors(b))
  }

  /** The loop of `max_value` after visiting the successors `ms`, from
      v = -inf. */
  function MaxOfMins(b: Board, ms: seq<Move>): EInt
    requires forall m :: m in ms ==> FreeCount(m.board) < FreeCount(b)
    decreases FreeCount(b), 0, |ms|
  {
    if ms == [] then NegInf
    else Max(MaxOfMins(b, ms[..|ms| - 1]), MinVal(ms[|ms| - 1].board))
  }

  /** One more turn of the loop of `max_value`. */
  lemma MaxOfMinsStep(b: Board, ms: seq<Move>, k: nat)
    requires forall m :: m in ms ==> FreeCount(m.board) < FreeCount(b)
    requires k < |ms|
    ensures MaxOfMins(b, ms[..k + 1]) == Max(MaxOfMins(b, ms[..k]), MinVal(ms[k].board))
  {
    assert ms[..k + 1][..k] == ms[..k];
  }

  /** `min_value` on values. */
  function MinVal(b: Board): EInt
    decreases FreeCount(b), 1
  {
    if IsTerminal(b) then Fin(UtilityOf(b))
    else
      SuccessorsFewer(b);
      MinOfMaxs(b, Successors(b))
  }

  /** The loop of `min_value` after visiting the successors `ms`, from
      v = +inf. */
  function MinOfMaxs(b: Board, ms: seq<Move>): EInt
    requires forall m :: m in ms ==> FreeCount(m.board) < FreeCount(b)
    decreases FreeCount(b), 0, |ms|
  {
    if ms == [] then PosInf
    else Min(MinOfMaxs(b, ms[..|ms| - 1]), MaxVal(ms[|ms| - 1].board))
  }

  /** One more turn of the loop of `min_value`. */
  lemma MinOfMaxsStep(b: Board, ms: seq<Move>, k: nat)
    requires forall m :: m in ms ==> FreeCount(m.board) < FreeCount(b)
    requires k < |ms|
    ensures MinOfMaxs(b, ms[..k + 1]) == Min(MinOfMaxs(b, ms[..k]), MaxVal(ms[k].board))
  {
    assert ms[..k + 1][..k] == ms[..k];
  }

  /** A game value is -1, 0 or 1. */
  predicate IsGameValue(v: EInt) {
    v.Fin? && -1 <= v.n <= 1
  }

  /** Minimax values are game values: the infinities the loops start from
      never survive, because a position that is not over has a move. */
  lemma MaxValRange(b: Board)
    ensures IsGameValue(MaxVal(b))
    decreases FreeCount(b), 1
  {
    if !IsTerminal(b) {
      NonTerminalMoves(b);
      SuccessorsFewer(b);
      MaxOfMinsRange(b, Successors(b));
    }
  }

  lemma {:induction false} MaxOfMinsRange(b: Board, ms: seq<Move>)
    requires forall m :: m in ms ==> FreeCount(m.board) < FreeCount(b)
    requires ms != []
    ensures IsGameValue(MaxOfMins(b, ms))
    decreases FreeCount(b), 0, |ms|
  {
    var init := ms[..|ms| - 1];
    MinValRange(ms[|ms| - 1].board);
    if init != [] {
      MaxOfMinsRange(b, init);
    }
  }

  lemma MinValRange(b: Board)
    ensures IsGameValue(MinVal(b))
    decreases FreeCount(b), 1
  {
    if !IsTerminal(b) {
      NonTerminalMoves(b);
      SuccessorsFewer(b);
      MinOfMaxsRange(b, Successors(b));
    }
  }

  lemma {:induction false} MinOfMaxsRange(b: Board, ms: seq<Move>)
    requires forall m :: m in ms ==> FreeCount(m.board) < FreeCount(b)
    requires ms != []
    ensures IsGameValue(MinOfMaxs(b, ms))
    decreases FreeCount(b), 0, |ms|
  {
    var init := ms[..|ms| - 1];
    MaxValRange(ms[|ms| - 1].board);
    if init != [] {
      MinOfMaxsRange(b, init);
    }
  }

  /** `max_value`. */
  method MaxValue(st: Board) returns (v: EInt)
    ensures v == MaxVal(st)
    decreases FreeCount(st), 1
  {
    if IsTerminal(st) {
      return Fin(UtilityOf(st));
    }
    v := NegInf;
    var succ := SuccessorsOf(st);
    SuccessorsFewer(st);
    for k := 0 to |succ|
      invariant v == MaxOfMins(st, succ[..k])
    {
      assert succ[k] in succ;
      var w := MinValue(succ[k].board);
      MaxOfMinsStep(st, succ, k);
      v := Max(v, w);
    }
    assert succ[..|succ|] == succ;
  }

  /** `min_value`. */
  method MinValue(st: Board) returns (v: EInt)
    ensures v == MinVal(st)
    decreases FreeCount(st), 1
  {
    if IsTerminal(st) {
      return Fin(UtilityOf(st));
    }
    v := PosInf;
    var succ := SuccessorsOf(st);
    SuccessorsFewer(st);
    for k := 0 to |succ|
      invariant v == MinOfMaxs(st, succ[..k])
    {
      assert succ[k] in succ;
      var w := MaxValue(succ[k].board);
      MinOfMaxsStep(st, succ, k);
      v := Min(v, w);
    }
    assert succ[..|succ|] == succ;
  }

  /** The keys `argmax` computes: `min_value` of each successor board. */
  method MinValues(succ: seq<Move>) returns (vals: seq<EInt>)
    ensures |vals| == |succ|
    ensures forall j :: 0 <= j < |succ| ==> vals[j] == MinVal(succ[j].board)
  {
    vals := [];
    for k := 0 to |succ|
      invariant |vals| == k
      invariant forall j :: 0 <= j < k ==> vals[j] == MinVal(succ[j].board)
    {
      var v := MinValue(succ[k].board);
      vals := vals + [v];
    }
  }

  /** `minmax_decision`: the empty square whose successor has the largest
      `min_value`, the first one in index order on ties (Python's `max`
      keeps the first maximal element). Python's `max` fails on a full
      board, so the board must have an empty square. */
  method MinmaxDecision(state: Board) returns (move: nat)
    requires exists i :: 0 <= i < 9 && state[i].Free?
    ensures move < 9 && state[move].Free?
    ensures forall m :: m in Successors(state) ==>
              Le(MinVal(m.board), MinVal(state[move := Mark(ToMove(state))]))
    ensures forall m :: m in Successors(state) && m.square < move ==>
              Lt(MinVal(m.board), MinVal(state[move := Mark(ToMove(state))]))
  {
    var succ := SuccessorsOf(state);
    SuccessorsSpec(state);
    var i :| 0 <= i < 9 && state[i].Free?;
    assert Move(i, state[i := Mark(ToMove(state))]) in succ;
    var vals := MinValues(succ);
    var best := FirstMax(vals);
    move := succ[best].square;
    ArgmaxChoice(succ, vals, best);
  }

  /** The successor at the index `argmax` picks among the keys has the
      largest `min_value`, and every successor for a smaller square has a
      strictly smaller one. */
  lemma ArgmaxChoice(succ: seq<Move>, vals: seq<EInt>, best: nat)
    requires Increasing(succ)
    requires |vals| == |succ| && best < |succ|
    requires forall j :: 0 <= j < |succ| ==> vals[j] == MinVal(succ[j].board)
    requires forall j :: 0 <= j < |vals| ==> Le(vals[j], vals[best])
    requires forall j :: 0 <= j < best ==> Lt(vals[j], vals[best])
    ensures forall m :: m in succ ==> Le(MinVal(m.board), MinVal(succ[best].board))
    ensures forall m :: m in succ && m.square < succ[best].square ==> Lt(MinVal(m.board), MinVal(succ[best].board))
  {
    forall m | m in succ
      ensures Le(MinVal(m.board), vals[best])
      ensures m.square < succ[best].square ==> Lt(MinVal(m.board), vals[best])
    {
      var j :| 0 <= j < |succ| && succ[j] == m;
      if j > best {
        assert succ[best].square < succ[j].square;
      }
    }
  }
}
