/** Breakthrough on a 5x5 board (lab_05/breakthrough_game_alphabeta.py):
    the start position, the move generator `succ`, the terminal test, the
    utility and the heuristic, and the move choice through the generic
    alpha-beta engine. */
module Breakthrough {
  import opened Wrappers
  import opened ExtInt
  import AlphaBeta

  const N: nat := 5

  /** A cell: a White piece, a Black piece or empty ("."). */
  datatype Piece = W | B | E

  predicate IsSquare(b: seq<seq<Piece>>) {
    |b| == N && forall r :: 0 <= r < |b| ==> |b[r]| == N
  }

  /** A board is N rows of N cells. */
  type Board = b: seq<seq<Piece>> | IsSquare(b) witness seq(N, _ => seq(N, _ => E))

  predicate OnBoard(r: int, c: int) {
    0 <= r < N && 0 <= c < N
  }

  /** `DIR`: White moves up (towards row 0), Black moves down. */
  function Dir(p: Piece): int
    requires p != E
  {
    if p == W then -1 else 1
  }

  /** The piece a mover of colour `p` may capture. */
  function Opponent(p: Piece): Piece {
    if p == W then B else W
  }

  // ---------------------------------------------------------------------
  // The start position.

  /** The content of row `r` at the start: Black on row 1, White on row
      N-2, empty elsewhere. */
  function StartCell(r: int): Piece {
    if r == 1 then B else if r == N - 2 then W else E
  }

  ghost predicate IsStart(bd: Board) {
    forall r, c :: OnBoard(r, c) ==> bd[r][c] == StartCell(r)
  }

  /** `start_board`: an empty board on which row 1 is filled with Black and
      row N-2 with White, column by column. */
  method StartBoard() returns (bd: Board)
    ensures IsStart(bd)
  {
    bd := seq(N, _ => seq(N, _ => E));
    for c := 0 to N
      invariant forall r, c' :: OnBoard(r, c') ==>
                  bd[r][c'] == if c' < c then StartCell(r) else E
    {
      bd := bd[1 := bd[1][c := B]];
      bd := bd[N - 2 := bd[N - 2][c := W]];
    }
  }

  // ---------------------------------------------------------------------
  // Moves.

  /** `(r, c, r2, c2)`: the piece on (r, c) goes to (r2, c2). */
  datatype Move = Move(r: int, c: int, r2: int, c2: int)

  /** One entry of the list `succ` returns: the move and the new board. */
  datatype Step = Step(mv: Move, board: Board)

  /** The column offsets in the order `succ` tries them. */
  const Offsets: seq<int> := [0, -1, 1]

  /** The rule of `succ` for the piece on (r, c) and column offset `dc`:
      there is a piece, the target is on the board, and the target is
      empty for a straight move or holds an opponent piece for a diagonal
      one. */
  predicate Allowed(bd: Board, r: int, c: int, dc: int)
    requires OnBoard(r, c)
  {
    bd[r][c] != E && OnBoard(r + Dir(bd[r][c]), c + dc) &&
    var target := bd[r + Dir(bd[r][c])][c + dc];
    (dc == 0 && target == E) || (dc != 0 && target == Opponent(bd[r][c]))
  }

  /** The moves of Breakthrough, stated on the move alone: one row in the
      mover's direction, at most one column sideways, straight onto an
      empty cell or diagonally onto an opponent. */
  predicate Legal(bd: Board, m: Move) {
    OnBoard(m.r, m.c) && OnBoard(m.r2, m.c2) && bd[m.r][m.c] != E &&
    m.r2 == m.r + Dir(bd[m.r][m.c]) && -1 <= m.c2 - m.c <= 1 &&
    if m.c2 == m.c then bd[m.r2][m.c2] == E else bd[m.r2][m.c2] == Opponent(bd[m.r][m.c])
  }

  /** The board after a move: a copy in which the source cell is emptied
      and the target holds the mover. */
  function Apply(bd: Board, m: Move): (nb: Board)
    requires OnBoard(m.r, m.c) && OnBoard(m.r2, m.c2) && m.r != m.r2
    ensures nb[m.r][m.c] == E && nb[m.r2][m.c2] == bd[m.r][m.c]
    ensures forall r, c :: OnBoard(r, c) && (r, c) != (m.r, m.c) && (r, c) != (m.r2, m.c2) ==>
              nb[r][c] == bd[r][c]
  {
    var b1 := bd[m.r := bd[m.r][m.c := E]];
    b1[m.r2 := b1[m.r2][m.c2 := bd[m.r][m.c]]]
  }

  /** The step for the piece on (r, c) and the `k`-th offset, if allowed. */
  function StepAt(bd: Board, r: int, c: int, k: nat): seq<Step>
    requires OnBoard(r, c) && k < |Offsets|
  {
    if Allowed(bd, r, c, Offsets[k]) then
      [Step(Move(r, c, r + Dir(bd[r][c]), c + Offsets[k]), Apply(bd, Move(r, c, r + Dir(bd[r][c]), c + Offsets[k])))]
    else []
  }

  /** The steps for the piece on (r, c) with the first `k` offsets. */
  function CellSteps(bd: Board, r: int, c: int, k: nat): seq<Step>
    requires OnBoard(r, c) && k <= |Offsets|
  {
    if k == 0 then [] else CellSteps(bd, r, c, k - 1) + StepAt(bd, r, c, k - 1)
  }

  /** The steps for the first `c` cells of row `r`. */
  function RowSteps(bd: Board, r: int, c: nat): seq<Step>
    requires 0 <= r < N && c <= N
  {
    if c == 0 then [] else RowSteps(bd, r, c - 1) + CellSteps(bd, r, c - 1, |Offsets|)
  }

  /** The steps for the first `r` rows. */
  function RowsSteps(bd: Board, r: nat): seq<Step>
    requires r <= N
  {
    if r == 0 then [] else RowsSteps(bd, r - 1) + RowSteps(bd, r - 1, |bd[r - 1]|)
  }

  /** What `succ` returns: rows top to bottom, cells left to right,
      offsets 0, -1, 1. */
  function AllSteps(bd: Board): seq<Step> {
    RowsSteps(bd, |bd|)
  }

  /** `succ`: the loop over rows and columns; the offsets of each cell are
      tried by `AppendCellSteps`. */
  method Succ(bd: Board) returns (out: seq<Step>)
    ensures out == AllSteps(bd)
  {
    out := [];
    for r := 0 to N
      invariant out == RowsSteps(bd, r)
    {
      for c := 0 to N
        invariant out == RowsSteps(bd, r) + RowSteps(bd, r, c)
      {
        ghost var before := out;
        out := AppendCellSteps(bd, r, c, out);
        AppendAssoc(RowsSteps(bd, r), RowSteps(bd, r, c), CellSteps(bd, r, c, |Offsets|));
      }
    }
  }

  /** The innermost loop of `succ`: for the piece on (r, c), each offset
      whose target is on the board and empty (straight) or an opponent
      (diagonal) appends the move and a copy of the board with the move
      made. */
  method AppendCellSteps(bd: Board, r: int, c: int, out0: seq<Step>) returns (out: seq<Step>)
    requires OnBoard(r, c)
    ensures out == out0 + CellSteps(bd, r, c, |Offsets|)
  {
    out := out0;
    for k := 0 to |Offsets|
      invariant out == out0 + CellSteps(bd, r, c, k)
    {
      ghost var prev := out;
      var p := bd[r][c];
      if p == W || p == B {
        var r2, c2 := r + Dir(p), c + Offsets[k];
        if 0 <= r2 < N && 0 <= c2 < N {
          var target := bd[r2][c2];
          var fwd := Offsets[k] == 0 && target == E;
          var cap := Offsets[k] != 0 && target == Opponent(p);
          if fwd || cap {
            var m := Move(r, c, r2, c2);
            out := out + [Step(m, Apply(bd, m))];
            assert StepAt(bd, r, c, k) == [Step(m, Apply(bd, m))];
          } else {
            assert StepAt(bd, r, c, k) == [];
          }
        } else {
          assert StepAt(bd, r, c, k) == [];
        }
      } else {
        assert StepAt(bd, r, c, k) == [];
      }
      assert out == prev + StepAt(bd, r, c, k);
      AppendAssoc(out0, CellSteps(bd, r, c, k), StepAt(bd, r, c, k));
    }
  }

  lemma AppendAssoc<T>(a: seq<T>, b: seq<T>, c: seq<T>)
    ensures (a + b) + c == a + (b + c)
  {
  }

  /** A well-formed entry of `succ`: a legal move and the board it makes. */
  predicate GoodStep(bd: Board, st: Step) {
    Legal(bd, st.mv) && st.board == Apply(bd, st.mv)
  }

  /** The position of a column offset in `Offsets`. */
  function Slot(dc: int): nat {
    if dc == 0 then 0 else if dc == -1 then 1 else 2
  }

  lemma StepAtExact(bd: Board, r: int, c: int, k: nat, st: Step)
    requires OnBoard(r, c) && k < |Offsets|
    ensures st in StepAt(bd, r, c, k) <==>
              GoodStep(bd, st) && st.mv.r == r && st.mv.c == c && Slot(st.mv.c2 - c) == k
  {
  }

  lemma {:induction false} CellStepsExact(bd: Board, r: int, c: int, k: nat, st: Step)
    requires OnBoard(r, c) && k <= |Offsets|
    ensures st in CellSteps(bd, r, c, k) <==>
              GoodStep(bd, st) && st.mv.r == r && st.mv.c == c && Slot(st.mv.c2 - c) < k
  {
    if k > 0 {
      CellStepsExact(bd, r, c, k - 1, st);
      StepAtExact(bd, r, c, k - 1, st);
    }
  }

  lemma {:induction false} RowStepsExact(bd: Board, r: int, c: nat, st: Step)
    requires 0 <= r < N && c <= N
    ensures st in RowSteps(bd, r, c) <==> GoodStep(bd, st) && st.mv.r == r && 0 <= st.mv.c < c
  {
    if c > 0 {
      RowStepsExact(bd, r, c - 1, st);
      CellStepsExact(bd, r, c - 1, |Offsets|, st);
    }
  }

  lemma {:induction false} RowsStepsExact(bd: Board, r: nat, st: Step)
    requires r <= N
    ensures st in RowsSteps(bd, r) <==> GoodStep(bd, st) && 0 <= st.mv.r < r
  {
    if r > 0 {
      RowsStepsExact(bd, r - 1, st);
      RowStepsExact(bd, r - 1, |bd[r - 1]|, st);
    }
  }

  /** `succ` lists exactly the legal moves, each with the board it makes
      from a copy of the input: the source emptied, the target holding
      the mover, every other cell unchanged. */
  lemma AllStepsExact(bd: Board, st: Step)
    ensures st in AllSteps(bd) <==> GoodStep(bd, st)
  {
    RowsStepsExact(bd, |bd|, st);
  }

  // ---------------------------------------------------------------------
  // Terminal test and utility.

  /** Some row holds `p`. */
  predicate Present(bd: Board, p: Piece) {
    exists r :: 0 <= r < N && p in bd[r]
  }

  /** `terminal`: a White piece on row 0, a Black piece on the last row,
      or one side without pieces. */
  predicate Terminal(bd: Board) {
    W in bd[0] || B in bd[N - 1] || !Present(bd, W) || !Present(bd, B)
  }

  /** `utility`: +inf when White has reached row 0, otherwise -inf when
      Black has reached the last row, otherwise 0. */
  function Utility(bd: Board): (u: EInt)
    ensures u == PosInf <==> W in bd[0]
    ensures u == NegInf <==> W !in bd[0] && B in bd[N - 1]
    ensures u != PosInf && u != NegInf ==> u == Fin(0)
  {
    if W in bd[0] then PosInf else if B in bd[N - 1] then NegInf else Fin(0)
  }

  /** A won position is terminal. */
  lemma UtilityDecided(bd: Board)
    requires Utility(bd) != Fin(0)
    ensures Terminal(bd)
  {
  }

  // ---------------------------------------------------------------------
  // Counting pieces.

  function Ind(b: bool): nat {
    if b then 1 else 0
  }

  /** The number of `p` among the cells of a row. */
  function RowCount(row: seq<Piece>, p: Piece): (n: nat)
    ensures n <= |row|
    ensures n == 0 <==> p !in row
  {
    if row == [] then 0 else RowCount(row[..|row| - 1], p) + Ind(row[|row| - 1] == p)
  }

  /** The number of `p` in the first `k` rows. */
  function CountRows(bd: Board, p: Piece, k: nat): (n: nat)
    requires k <= N
    ensures n <= k * N
    ensures n == 0 <==> forall r :: 0 <= r < k ==> p !in bd[r]
  {
    if k == 0 then 0 else CountRows(bd, p, k - 1) + RowCount(bd[k - 1], p)
  }

  /** `sum(x == p for row in bd for x in row)`. */
  function Count(bd: Board, p: Piece): nat {
    CountRows(bd, p, |bd|)
  }

  /** Pieces are counted iff they are present. */
  lemma CountPresent(bd: Board, p: Piece)
    ensures Count(bd, p) > 0 <==> Present(bd, p)
  {
  }

  /** `terminal`, stated with the piece counts of the heuristic. */
  lemma TerminalByCounts(bd: Board)
    ensures Terminal(bd) <==> W in bd[0] || B in bd[N - 1] || Count(bd, W) == 0 || Count(bd, B) == 0
  {
    CountPresent(bd, W);
    CountPresent(bd, B);
  }

  lemma {:induction false} RowCountSet(row: seq<Piece>, c: nat, q: Piece, p: Piece)
    requires c < |row|
    ensures RowCount(row[c := q], p) + Ind(row[c] == p) == RowCount(row, p) + Ind(q == p)
  {
    var n := |row| - 1;
    if c < n {
      RowCountSet(row[..n], c, q, p);
      assert row[c := q][..n] == row[..n][c := q];
    } else {
      assert row[c := q][..n] == row[..n];
    }
  }

  lemma {:induction false} CountRowsSet(bd: Board, r: nat, row: seq<Piece>, p: Piece, k: nat)
    requires r < N && |row| == N && k <= N
    ensures CountRows(bd[r := row], p, k) + (if r < k then RowCount(bd[r], p) else 0) ==
            CountRows(bd, p, k) + (if r < k then RowCount(row, p) else 0)
  {
    if k > 0 {
      CountRowsSet(bd, r, row, p, k - 1);
    }
  }

  /** Writing `q` into one cell changes the count of `p` by the cell's
      old and new content only. */
  lemma CountSet(bd: Board, r: nat, c: nat, q: Piece, p: Piece)
    requires OnBoard(r, c)
    ensures Count(bd[r := bd[r][c := q]], p) + Ind(bd[r][c] == p) == Count(bd, p) + Ind(q == p)
  {
    RowCountSet(bd[r], c, q, p);
    CountRowsSet(bd, r, bd[r][c := q], p, N);
  }

  /** A step keeps the mover's pieces and removes one opponent piece
      exactly when it is a capture (a diagonal move). */
  lemma StepCounts(bd: Board, st: Step)
    requires st in AllSteps(bd)
    ensures OnBoard(st.mv.r, st.mv.c) &&
            var p := bd[st.mv.r][st.mv.c];
            p != E &&
            Count(st.board, p) == Count(bd, p) &&
            Count(st.board, Opponent(p)) + Ind(st.mv.c2 != st.mv.c) == Count(bd, Opponent(p))
  {
    AllStepsExact(bd, st);
    var m := st.mv;
    var p := bd[m.r][m.c];
    var b1 := bd[m.r := bd[m.r][m.c := E]];
    assert st.board == b1[m.r2 := b1[m.r2][m.c2 := p]];
    CountSet(bd, m.r, m.c, E, p);
    CountSet(b1, m.r2, m.c2, p, p);
    CountSet(bd, m.r, m.c, E, Opponent(p));
    CountSet(b1, m.r2, m.c2, p, Opponent(p));
  }

  // ---------------------------------------------------------------------
  // The heuristic.

  /** The first of the first `k` rows that holds `p`, or `k` if none. */
  function FirstRowWith(bd: Board, p: Piece, k: nat): (f: nat)
    requires k <= N
    ensures f <= k
    ensures f < k ==> p in bd[f]
    ensures forall r :: 0 <= r < f ==> p !in bd[r]
  {
    if k == 0 then 0
    else
      var f := FirstRowWith(bd, p, k - 1);
      if f < k - 1 then f else if p in bd[k - 1] then k - 1 else k
  }

  /** The last of the first `k` rows that holds `p`, or -1 if none. */
  function LastRowWith(bd: Board, p: Piece, k: nat): (l: int)
    requires k <= N
    ensures -1 <= l < k
    ensures l >= 0 ==> p in bd[l]
    ensures forall r :: l < r < k ==> p !in bd[r]
  {
    if k == 0 then -1 else if p in bd[k - 1] then k - 1 else LastRowWith(bd, p, k - 1)
  }

  /** `adv_w`: how far the most advanced White piece has come, N-1-r over
      the rows r holding White, or 0 without White pieces. */
  function AdvanceW(bd: Board): int {
    if Count(bd, W) > 0 then N - 1 - FirstRowWith(bd, W, |bd|) else 0
  }

  /** `adv_b`: the largest row holding Black, or 0 without Black pieces. */
  function AdvanceB(bd: Board): int {
    if Count(bd, B) > 0 then LastRowWith(bd, B, |bd|) else 0
  }

  /** `adv_w` is the maximum of N-1-r over the White pieces. */
  lemma AdvanceWIsMax(bd: Board)
    ensures 0 <= AdvanceW(bd) < N
    ensures forall r, c :: OnBoard(r, c) && bd[r][c] == W ==> N - 1 - r <= AdvanceW(bd)
    ensures Count(bd, W) > 0 ==> exists r, c :: OnBoard(r, c) && bd[r][c] == W && N - 1 - r == AdvanceW(bd)
  {
    var f := FirstRowWith(bd, W, N);
    forall r, c | OnBoard(r, c) && bd[r][c] == W
      ensures N - 1 - r <= AdvanceW(bd)
    {
      assert W in bd[r];
      CountPresent(bd, W);
    }
    if Count(bd, W) > 0 {
      assert f < N by {
        var r :| 0 <= r < N && W in bd[r];
      }
      var c :| 0 <= c < |bd[f]| && bd[f][c] == W;
      assert OnBoard(f, c);
    }
  }

  /** `adv_b` is the maximum row over the Black pieces. */
  lemma AdvanceBIsMax(bd: Board)
    ensures 0 <= AdvanceB(bd) < N
    ensures forall r, c :: OnBoard(r, c) && bd[r][c] == B ==> r <= AdvanceB(bd)
    ensures Count(bd, B) > 0 ==> exists r, c :: OnBoard(r, c) && bd[r][c] == B && r == AdvanceB(bd)
  {
    var l := LastRowWith(bd, B, N);
    forall r, c | OnBoard(r, c) && bd[r][c] == B
      ensures r <= AdvanceB(bd)
    {
      assert B in bd[r];
      CountPresent(bd, B);
    }
    if Count(bd, B) > 0 {
      assert l >= 0 by {
        var r :| 0 <= r < N && B in bd[r];
      }
      var c :| 0 <= c < |bd[l]| && bd[l][c] == B;
      assert OnBoard(l, c);
    }
  }

  /** `heuristic`: ten points per piece of material, plus the advancement
      difference. */
  function Heuristic(bd: Board): int {
    10 * (Count(bd, W) - Count(bd, B)) + (AdvanceW(bd) - AdvanceB(bd))
  }

  /** The heuristic stays within the material and advancement ranges. */
  lemma HeuristicRange(bd: Board)
    ensures -10 * N * N - (N - 1) <= Heuristic(bd) <= 10 * N * N + (N - 1)
  {
    AdvanceWIsMax(bd);
    AdvanceBIsMax(bd);
  }

  /** The start position is balanced and not over: five pieces a side,
      each side one row advanced, heuristic and utility 0. */
  lemma StartBalanced(bd: Board)
    requires IsStart(bd)
    ensures !Terminal(bd) && Utility(bd) == Fin(0) && Heuristic(bd) == 0
  {
    forall r | 0 <= r < N
      ensures RowCount(bd[r], W) == if r == N - 2 then N else 0
      ensures RowCount(bd[r], B) == if r == 1 then N else 0
    {
      assert forall c :: 0 <= c < |bd[r]| ==> bd[r][c] == StartCell(r) by {
        forall c | 0 <= c < |bd[r]| ensures bd[r][c] == StartCell(r) {
          assert OnBoard(r, c);
        }
      }
      RowCountAll(bd[r], StartCell(r), W);
      RowCountAll(bd[r], StartCell(r), B);
    }
    assert CountRows(bd, W, 4) == N && CountRows(bd, B, 2) == N;
    assert CountRows(bd, B, 4) == N;
    assert Count(bd, W) == N && Count(bd, B) == N;
    assert FirstRowWith(bd, W, 3) == 3;
    assert FirstRowWith(bd, W, 4) == 3;
    assert FirstRowWith(bd, W, N) == 3;
    assert LastRowWith(bd, B, 2) == 1;
    assert LastRowWith(bd, B, N) == 1;
  }

  /** A row of one piece `q` counts all its cells as `q`. */
  lemma {:induction false} RowCountAll(row: seq<Piece>, q: Piece, p: Piece)
    requires forall c :: 0 <= c < |row| ==> row[c] == q
    ensures RowCount(row, p) == if q == p then |row| else 0
  {
    if row != [] {
      RowCountAll(row[..|row| - 1], q, p);
    }
  }

  // ---------------------------------------------------------------------
  // `succ` as written ignores whose turn it is.

  /** From the start position, `succ` offers Black's move (1,0) -> (2,0)
      to the searching side, White. */
  lemma SuccMixesSides(bd: Board)
    requires IsStart(bd)
    ensures exists st :: st in AllSteps(bd) && st.mv == Move(1, 0, 2, 0) && bd[1][0] == B
  {
    var m := Move(1, 0, 2, 0);
    assert OnBoard(2, 0) && OnBoard(1, 0);
    var st := Step(m, Apply(bd, m));
    AllStepsExact(bd, st);
  }

  /** The entries of `steps` whose mover on `bd` is `p`, in order. */
  function StepsOf(bd: Board, p: Piece, steps: seq<Step>): (own: seq<Step>)
    ensures forall st :: st in own <==> st in steps && OnBoard(st.mv.r, st.mv.c) && bd[st.mv.r][st.mv.c] == p
  {
    if steps == [] then []
    else
      var st := steps[|steps| - 1];
      StepsOf(bd, p, steps[..|steps| - 1]) +
        (if OnBoard(st.mv.r, st.mv.c) && bd[st.mv.r][st.mv.c] == p then [st] else [])
  }

  /** The moves of side `p` alone, in the order of `succ`. */
  function SideSteps(bd: Board, p: Piece): seq<Step> {
    StepsOf(bd, p, AllSteps(bd))
  }

  /** Every move offered to side `p` moves a piece of `p`, and every legal
      move of `p` is offered. */
  lemma SideStepsExact(bd: Board, p: Piece, st: Step)
    ensures st in SideSteps(bd, p) <==> GoodStep(bd, st) && bd[st.mv.r][st.mv.c] == p
  {
    AllStepsExact(bd, st);
  }

  // ---------------------------------------------------------------------
  // The search.

  /** `DEPTH`: the search horizon of `best_move`. */
  const Depth := 4

  /** `succ` as `best_move` hands it to the engine: the (move, board)
      pairs of both colours, in the order of `succ`. */
  function BoardSteps(bd: Board): (out: seq<(Move, Board)>)
    ensures |out| == |AllSteps(bd)|
    ensures forall i :: 0 <= i < |out| ==> out[i].0 == AllSteps(bd)[i].mv && out[i].1 == AllSteps(bd)[i].board
  {
    var steps := AllSteps(bd);
    seq(|steps|, i requires 0 <= i < |steps| => (steps[i].mv, steps[i].board))
  }

  /** `best_move`'s call of the engine, as written: the boards alone, with
      `succ` offering the moves of both colours at every ply, depth 4, the
      heuristic at the horizon, White maximising. */
  function SourceGame(): AlphaBeta.Game<Board, Move> {
    AlphaBeta.Game(BoardSteps, Terminal, Utility, Some(Depth), Some((bd: Board) => Fin(Heuristic(bd))))
  }

  /** No ranking is needed: the search is cut off at depth 4. */
  function NoBoardRank(bd: Board): nat {
    0
  }

  /** The depth-4 value, in the search as written, of the `j`-th move
      `succ` lists. */
  ghost function SourceMoveValue(bd: Board, j: nat): EInt
    requires j < |AllSteps(bd)|
  {
    AlphaBeta.ChildValue(SourceGame(), NoBoardRank, bd, true, j)
  }

  /** `best_move` as written: the move chosen by a depth-4 alpha-beta
      search over `succ`. It is a legal move, but of either colour (the
      start board lists Black moves, `SuccMixesSides`), whose depth-4
      value is at least that of every listed move and above that of every
      earlier one. No move comes back when `succ` lists nothing, and also
      when every listed move is valued -inf: the root loop keeps only a
      value above its starting -inf. */
  method BestMove(bd: Board) returns (mv: Option<Move>)
    ensures mv.Some? ==> Legal(bd, mv.value)
    ensures mv.Some? ==>
              exists k :: 0 <= k < |AllSteps(bd)| && mv.value == AllSteps(bd)[k].mv &&
                (forall j :: 0 <= j < |AllSteps(bd)| ==> Le(SourceMoveValue(bd, j), SourceMoveValue(bd, k))) &&
                (forall j :: 0 <= j < k ==> Lt(SourceMoveValue(bd, j), SourceMoveValue(bd, k)))
    ensures AllSteps(bd) == [] ==> mv.None?
    ensures mv.None? ==> forall j :: 0 <= j < |AllSteps(bd)| ==> SourceMoveValue(bd, j) == NegInf
  {
    var val;
    mv, val := AlphaBeta.AlphaBetaSearch(SourceGame(), NoBoardRank, bd, true);
    SourceSearchLegal(bd, mv);
    SourceSearchBest(bd, mv, val);
  }

  /** The engine returns one of the moves `succ` listed. */
  lemma SourceSearchLegal(bd: Board, mv: Option<Move>)
    requires var g := SourceGame();
             mv.Some? ==> exists k :: 0 <= k < |g.successors(bd)| && mv.value == g.successors(bd)[k].0
    ensures mv.Some? ==> Legal(bd, mv.value)
  {
    if mv.Some? {
      var k :| 0 <= k < |AllSteps(bd)| && mv.value == AllSteps(bd)[k].mv;
      AllStepsExact(bd, AllSteps(bd)[k]);
    }
  }

  /** What the engine's guarantees say about the values of the listed
      moves. */
  lemma SourceSearchBest(bd: Board, mv: Option<Move>, val: EInt)
    requires var g := SourceGame();
             mv.Some? ==>
               exists k :: 0 <= k < |g.successors(bd)| && mv.value == g.successors(bd)[k].0 &&
                 val == AlphaBeta.ChildValue(g, NoBoardRank, bd, true, k) &&
                 forall j :: 0 <= j < k ==> AlphaBeta.Better(true, val, AlphaBeta.ChildValue(g, NoBoardRank, bd, true, j))
    requires var g := SourceGame();
             forall j :: 0 <= j < |g.successors(bd)| ==>
               !AlphaBeta.Better(true, AlphaBeta.ChildValue(g, NoBoardRank, bd, true, j), val)
    requires mv.None? ==> val == NegInf
    ensures mv.Some? ==>
              exists k :: 0 <= k < |AllSteps(bd)| && mv.value == AllSteps(bd)[k].mv &&
                (forall j :: 0 <= j < |AllSteps(bd)| ==> Le(SourceMoveValue(bd, j), SourceMoveValue(bd, k))) &&
                (forall j :: 0 <= j < k ==> Lt(SourceMoveValue(bd, j), SourceMoveValue(bd, k)))
    ensures AllSteps(bd) == [] ==> mv.None?
    ensures mv.None? ==> forall j :: 0 <= j < |AllSteps(bd)| ==> SourceMoveValue(bd, j) == NegInf
  {
    forall j | 0 <= j < |AllSteps(bd)|
      ensures Le(SourceMoveValue(bd, j), val)
    {
      LeTotal(SourceMoveValue(bd, j), val);
    }
  }

  /** A position with the side to move, so that each side moves only its
      own pieces. */
  datatype Position = Position(board: Board, side: Piece)

  function PositionSteps(pos: Position): (out: seq<(Move, Position)>)
    ensures |out| == |SideSteps(pos.board, pos.side)|
    ensures forall i :: 0 <= i < |out| ==>
              out[i].0 == SideSteps(pos.board, pos.side)[i].mv &&
              out[i].1 == Position(SideSteps(pos.board, pos.side)[i].board, Opponent(pos.side))
  {
    var steps := SideSteps(pos.board, pos.side);
    seq(|steps|, i requires 0 <= i < |steps| => (steps[i].mv, Position(steps[i].board, Opponent(pos.side))))
  }

  /** The corrected call of the engine: positions with the side to move,
      depth 4, the heuristic at the horizon, White maximising. */
  function Game(): AlphaBeta.Game<Position, Move> {
    AlphaBeta.Game(PositionSteps, (pos: Position) => Terminal(pos.board), (pos: Position) => Utility(pos.board),
                   Some(Depth), Some((pos: Position) => Fin(Heuristic(pos.board))))
  }

  /** No ranking is needed: the search is cut off at depth 4. */
  function NoRank(pos: Position): nat {
    0
  }

  /** The depth-4 value of White's `j`-th move. */
  ghost function MoveValue(bd: Board, j: nat): EInt
    requires j < |SideSteps(bd, W)|
  {
    AlphaBeta.ChildValue(Game(), NoRank, Position(bd, W), true, j)
  }

  /** `best_move` corrected to search positions, each side moving only its
      own pieces: White's move chosen by a depth-4 alpha-beta search. It is
      a legal move of a White piece whose depth-4 value is at least that of
      every White move and above that of every earlier one. No move comes
      back when White has no move, and also when every White move is
      valued -inf. */
  method CorrectedBestMove(bd: Board) returns (mv: Option<Move>)
    ensures mv.Some? ==> Legal(bd, mv.value) && bd[mv.value.r][mv.value.c] == W
    ensures mv.Some? ==>
              exists k :: 0 <= k < |SideSteps(bd, W)| && mv.value == SideSteps(bd, W)[k].mv &&
                (forall j :: 0 <= j < |SideSteps(bd, W)| ==> Le(MoveValue(bd, j), MoveValue(bd, k))) &&
                (forall j :: 0 <= j < k ==> Lt(MoveValue(bd, j), MoveValue(bd, k)))
    ensures SideSteps(bd, W) == [] ==> mv.None?
    ensures mv.None? ==> forall j :: 0 <= j < |SideSteps(bd, W)| ==> MoveValue(bd, j) == NegInf
  {
    var val;
    mv, val := AlphaBeta.AlphaBetaSearch(Game(), NoRank, Position(bd, W), true);
    SearchLegal(bd, mv);
    SearchBest(bd, mv, val);
  }

  /** The engine returns one of the moves it was given. */
  lemma SearchLegal(bd: Board, mv: Option<Move>)
    requires var g, pos := Game(), Position(bd, W);
             mv.Some? ==> exists k :: 0 <= k < |g.successors(pos)| && mv.value == g.successors(pos)[k].0
    ensures mv.Some? ==> Legal(bd, mv.value) && bd[mv.value.r][mv.value.c] == W
  {
    GameSteps(bd);
    if mv.Some? {
      var k :| 0 <= k < |SideSteps(bd, W)| && mv.value == SideSteps(bd, W)[k].mv;
      WhiteStepLegal(bd, k);
    }
  }

  /** What the engine's guarantees say about the values of White's moves. */
  lemma SearchBest(bd: Board, mv: Option<Move>, val: EInt)
    requires var g, pos := Game(), Position(bd, W);
             mv.Some? ==>
               exists k :: 0 <= k < |g.successors(pos)| && mv.value == g.successors(pos)[k].0 &&
                 val == AlphaBeta.ChildValue(g, NoRank, pos, true, k) &&
                 forall j :: 0 <= j < k ==> AlphaBeta.Better(true, val, AlphaBeta.ChildValue(g, NoRank, pos, true, j))
    requires var g, pos := Game(), Position(bd, W);
             forall j :: 0 <= j < |g.successors(pos)| ==>
               !AlphaBeta.Better(true, AlphaBeta.ChildValue(g, NoRank, pos, true, j), val)
    requires mv.None? ==> val == NegInf
    ensures mv.Some? ==>
              exists k :: 0 <= k < |SideSteps(bd, W)| && mv.value == SideSteps(bd, W)[k].mv &&
                (forall j :: 0 <= j < |SideSteps(bd, W)| ==> Le(MoveValue(bd, j), MoveValue(bd, k))) &&
                (forall j :: 0 <= j < k ==> Lt(MoveValue(bd, j), MoveValue(bd, k)))
    ensures SideSteps(bd, W) == [] ==> mv.None?
    ensures mv.None? ==> forall j :: 0 <= j < |SideSteps(bd, W)| ==> MoveValue(bd, j) == NegInf
  {
    GameSteps(bd);
    BestIsMax(bd, val);
  }

  lemma WhiteStepLegal(bd: Board, k: nat)
    requires k < |SideSteps(bd, W)|
    ensures var m := SideSteps(bd, W)[k].mv; Legal(bd, m) && bd[m.r][m.c] == W
  {
    SideStepsExact(bd, W, SideSteps(bd, W)[k]);
  }

  /** The engine's view of White's moves is `SideSteps`. */
  lemma GameSteps(bd: Board)
    ensures |Game().successors(Position(bd, W))| == |SideSteps(bd, W)|
    ensures forall i :: 0 <= i < |SideSteps(bd, W)| ==>
              Game().successors(Position(bd, W))[i].0 == SideSteps(bd, W)[i].mv
  {
  }

  /** A value that no move improves on is at least every move's value. */
  lemma BestIsMax(bd: Board, val: EInt)
    requires forall j :: 0 <= j < |SideSteps(bd, W)| ==> !Lt(val, MoveValue(bd, j))
    ensures forall j :: 0 <= j < |SideSteps(bd, W)| ==> Le(MoveValue(bd, j), val)
  {
    forall j | 0 <= j < |SideSteps(bd, W)|
      ensures Le(MoveValue(bd, j), val)
    {
      LeTotal(MoveValue(bd, j), val);
    }
  }
}
