# AI exercises, modelled in Dafny

This project models the algorithmic core of a set of introductory artificial-intelligence
exercises and proves properties of that model. The exercises cover:

- a backtracking constraint-satisfaction solver (lab_06);
- minimax and alpha-beta game players for tic-tac-toe, Nim and Breakthrough (lab_05);
- uninformed tree and graph search for a letter graph, the two-square vacuum world and the
  farmer-wolf-goat-cabbage puzzle (lab_02);
- A* and greedy best-first search (lab_03);
- the crossover and mutation operators of two genetic algorithms (lab_04);
- the reflex, rule-based, table-driven and model-based vacuum agents (lab_01 and the
  repository root).

Each source file becomes one module:

- **Csp** (`csp.dfy`): the solver. `CSP` is a class whose variable domains `D` and node
  counter `steps` are updated in place. The variables `V`, the neighbour lists `N` and the
  constraint `cons` are constants. The class provides:
  - MRV variable selection with a degree tie-break;
  - least-constraining-value ordering;
  - forward checking with a removal log and `restore`;
  - AC-3 with `revise`;
  - recursive backtracking.

  Each imperative step is proved against a pure function (`ForwardChecked`, `Restored`,
  `Filter`). The lemmas then relate those functions, for example "restore undoes forward
  checking". The search is proved sound and complete against `IsSolution`: a failed search
  means no solution exists. With forward checking this holds when the constraint forbids
  equal values, and with AC-3 when the graph is simple.
- **AustraliaMap** (`australia.dfy`): the map-colouring instance. The search is proved to find
  a solution whatever the switches, and the check proves it colours bordering regions
  differently.
- **EqualPair** (`equalpair.dfy`): a two-variable instance on which `forward_check` loses a
  solution (see Findings).
- **TicTacToe**, **Nim**, **AlphaBeta**, **Breakthrough**: the game players.
  - The minimax values are recursive functions. The loops of `max_value`, `min_value` and
    `argmax` are methods proved equal to them.
  - The generic alpha-beta engine is proved fail-soft against a reference minimax. Its root
    loop is proved to return the exact minimax value of the move it picks.
- **SearchNodes**, **TreeSearch**, **GraphSearch**, **VacuumBfs**, **RiverCrossing**: search
  nodes with parent links and the `TREE_SEARCH` loops. The breadth-first search with an
  explored set is proved:
  - sound: a returned path is a walk to the goal;
  - complete: `None` means no walk reaches the goal;
  - optimal: no walk to the goal is shorter.
- **AStar**, **VacuumAStar**, **Informed**, **MinQueue**: the priority-queue searches.
  - A* is proved optimal under a consistent heuristic.
  - The vacuum heuristic is proved consistent, so the four-square demo finds a plan of cost 7.
- **GaBits**, **GaQueens**: fitness, one-point crossover, bit-flip mutation, order-one
  crossover and swap mutation. The main results are a round trip between bit strings and
  numbers, and that order-one crossover of two permutations is a permutation.
- **VacuumWorld**, **ReflexAgents**, **RuleAgents**, **TableAgents**, **ModelAgent**,
  **StateAgent**: the world's `Environment` dictionary as a class with `Sensors` and
  `Actuators`, and each agent's decision rule.
  - The model-based agent is proved to clean any world from any start.
  - The table-driven agent's table is proved to need 4^T entries for T steps.

**Shared modules.**
- `ExtInt` (`extint.dfy`) stands for the float infinities used as minimax sentinels.
- `Wrappers` and `Seqs` (`seqs.dfy`) provide an `Option` type and the list operations
  `list.remove`, filters and a stable sort by key.

**Where the code differs from its own comments, the model follows the code:**
- `forward_check` (lab_06/constraints_template.py:71-79) is documented as pruning
  inconsistent values. In fact it removes the assigned value itself from every neighbour
  holding it, without consulting the constraint (line 74 assumes map colouring).
- `order_domain_vals` (lab_06/constraints_template.py:58-66) scores a value against every
  neighbour's domain, whether that neighbour is assigned or not.
- `restore` (lab_06/constraints_template.py:81-83) appends values back, so a restored domain
  has the same members as before. The order of its values can differ.
- The four-square agents are documented as sweeping A->B->C->D->C->B->A from any start
  (reflex_vacuum_agent.py:41, reflex_agent_with_state.py:12). As written, C always sends the
  robot Right, so a robot started away from A never reaches A.

## Model

| member | source | states |
|---|---|---|
| Csp.CSP.constructor | lab_06/constraints_template.py:26-37 | the problem holds the given variables, domains, neighbours and constraint, and the node counter starts at 0 |
| Csp.CSP.IsCompleteMeans | lab_06/constraints_template.py:40-41 | for an assignment over the variables, `len(A) == len(V)` holds exactly when every variable is assigned |
| Csp.CSP.ConsistentWith | lab_06/constraints_template.py:45 | true exactly when the value satisfies the constraint against every assigned variable of the list |
| Csp.CSP.IsConsistent | lab_06/constraints_template.py:43-45 | `is_consistent` holds iff the constraint holds between the value and every assigned neighbour |
| Csp.CSP.MinDomainSize | lab_06/constraints_template.py:50-51 | the result is the size of the smallest domain among the unassigned variables, and some variable has it |
| Csp.CSP.Unassigned | lab_06/constraints_template.py:49 | exactly the variables of `V` not in the assignment |
| Csp.CSP.Densest | lab_06/constraints_template.py:52 | exactly the candidates whose domain has the minimum size |
| Csp.CSP.FirstMaxDegree | lab_06/constraints_template.py:53-55 | Python's `max` with the neighbour-count key: an index of maximal degree, and every earlier candidate has strictly fewer neighbours |
| Csp.CSP.SelectUnassignedVar | lab_06/constraints_template.py:48-55 | MRV with the degree tie-break: an unassigned variable whose domain is no larger than that of any unassigned variable, and whose degree is maximal among those with the same domain size |
| Csp.CSP.SelectUnassignedVarFirst | lab_06/constraints_template.py:48-55 | ties go to the earliest variable in `V`: an earlier unassigned variable with the same domain size has strictly fewer neighbours |
| Csp.CSP.OrderDomainVals | lab_06/constraints_template.py:58-66 | `sorted(D[x], key=lcv_score)`: a permutation of the domain, ordered by score, and stable (values of equal score keep their domain order) |
| Csp.Prune | lab_06/constraints_template.py:73-76 | replaying a removal log with `list.remove` keeps the set of variables |
| Csp.Restored | lab_06/constraints_template.py:81-83 | replaying a removal log with `append` keeps the set of variables |
| Csp.RestoredAdds | lab_06/constraints_template.py:81-83 | restoring appends to each domain exactly the values the log records for it |
| Csp.RestoreReorders | lab_06/constraints_template.py:81-83 | `restore` brings back membership, not position: a domain pruned and restored can come back reordered |
| Csp.ForwardChecked | lab_06/constraints_template.py:71-79 | forward checking, on values, keeps the set of variables |
| Csp.CSP.ForwardCheck | lab_06/constraints_template.py:71-79 | the loop leaves the domains, the success flag and the removal log as `ForwardChecked` describes them |
| Csp.FcReplays | lab_06/constraints_template.py:71-79 | the log names only neighbours and the assigned value, and replaying it gives the pruned domains |
| Csp.FcRemovesLogged | lab_06/constraints_template.py:71-79 | each domain lost exactly the values the log names for it |
| Csp.FcShrinks | lab_06/constraints_template.py:71-79 | forward checking only removes values |
| Csp.FcClears | lab_06/constraints_template.py:71-79 | on success no neighbour still holds the value, and every neighbour that held it has a log entry |
| Csp.FcOutcome | lab_06/constraints_template.py:73-79 | failure means the last logged domain was emptied; success means no non-empty domain became empty |
| Csp.CSP.Restore | lab_06/constraints_template.py:81-83 | the new domains are `Restored(old domains, log)` |
| Csp.RestoreUndoesForwardCheck | lab_06/constraints_template.py:71-83 | forward checking followed by `restore` returns every domain to the same members, even after a deeper search that restored its own removals |
| Csp.AnySupport | lab_06/constraints_template.py:101 | `any(...)` is true iff some value of the other domain satisfies the constraint |
| Csp.CSP.ReviseValue | lab_06/constraints_template.py:101-103 | one value is dropped exactly when it has no support, and nothing else changes |
| Csp.ReviseDrop | lab_06/constraints_template.py:100-103 | a deletion step keeps the loop invariant of `revise`, and `list.remove` deletes the visited value |
| Csp.ReviseKeep | lab_06/constraints_template.py:100-103 | a keeping step keeps the loop invariant of `revise` |
| Csp.ReviseDone | lab_06/constraints_template.py:98-104 | after the loop, the kept values are a duplicate-free sub-multiset, and `revised` is true iff something was removed |
| Csp.CSP.Revise | lab_06/constraints_template.py:98-104 | only the domain of Xi changes, and it only shrinks; for distinct arcs it becomes the filter of supported values; the result is true iff a value was removed; on an edge of a simple graph every solution within the old domains stays within the new ones |
| Csp.CSP.Requeue | lab_06/constraints_template.py:93-95 | the queue is extended by exactly the arcs (Xk, Xi) with Xk a neighbour of Xi other than Xj; on a simple graph every queued arc stays an edge |
| Csp.ArcsMembers | lab_06/constraints_template.py:87 | the initial queue holds exactly the arcs of the constraint graph |
| Csp.CSP.Ac3Visit | lab_06/constraints_template.py:88-95 | one round only shrinks domains and lowers (total domain size, queue length); it reports emptied iff it emptied a domain that was not empty; on a simple graph it keeps every solution within the domains and every queued arc an edge |
| Csp.CSP.Ac3 | lab_06/constraints_template.py:85-96 | the domains only shrink, and the result is true iff no domain was emptied by the run; on a simple graph every solution within the old domains stays within the new ones, and false means the problem has no solution |
| Csp.Ac3Step | lab_06/constraints_template.py:89-92 | a revision keeps the domains shrinking, lowers the total size iff it revised, and an emptied domain was non-empty before |
| Csp.Ac3Chain | lab_06/constraints_template.py:88-96 | rounds compose: the domains still only shrink, and a failure names a domain the run emptied |
| Csp.TotalSizeUpdate | lab_06/constraints_template.py:88-95 | shrinking one domain never raises the termination measure of AC-3, and strictly lowers it when a listed domain lost a value |
| Csp.CSP.Backtrack | lab_06/constraints_template.py:118-138 | a solution is complete, checked on every edge, extends the assignment, and draws new values from the domains; on failure every domain has its old members, and no solution extends the assignment within the domains (with forward checking: when the constraint forbids equal values and no variable neighbours itself); without forward checking the domains are untouched |
| Csp.CSP.TryValue | lab_06/constraints_template.py:124-137 | one turn of the value loop, with the same guarantees as `_backtrack`: on failure no solution gives `x` this value |
| Csp.CSP.CheckedDescend | lab_06/constraints_template.py:128-136 | the forward-checking branch, with the same guarantees as `_backtrack`; a failed `forward_check` abandons the value |
| Csp.CSP.PrunedDescend | lab_06/constraints_template.py:130-136 | the recursive call after pruning; failure restores the members of the domains at the start of the turn and, when the constraint forbids equal values, means no solution gives `x` this value |
| Csp.CSP.Undo | lab_06/constraints_template.py:135-136 | the `restore` at the end of a failed turn gives back the members of the domains before forward checking |
| Csp.EdgesExtend | lab_06/constraints_template.py:124-125 | a value consistent with every assigned neighbour extends an assignment whose edges were checked to one whose edges are checked |
| Csp.ExtendValues | lab_06/constraints_template.py:123-133 | a deeper solution keeps the values already assigned and draws the others from the domains as they were |
| Csp.CSP.BacktrackingSearch | lab_06/constraints_template.py:109-116 | a solution assigns every variable a value of its original domain and satisfies every edge; the domains are put back unless AC-3 failed by emptying one; None means the problem has no solution (with forward checking: when the constraint forbids equal values and no variable neighbours itself; with AC-3: when the graph is simple) |
| Csp.CSP.SolutionEdge | lab_06/constraints_template.py:43-45 | a solution satisfies the constraint along every edge between distinct variables |
| Csp.CSP.InconsistentUnsolvable | lab_06/constraints_template.py:124 | a value that clashes with an assigned neighbour is in no solution extending the assignment |
| Csp.CSP.ValuesCover | lab_06/constraints_template.py:122-138 | every solution gives `var` a value of `order_domain_vals`, so when none of them leads to a solution, none extends the assignment |
| Csp.CSP.SolvableSameMembers | lab_06/constraints_template.py:81-83 | whether a solution exists depends only on the members of the domains, so `restore` keeps it |
| Csp.WithinSameMembers | lab_06/constraints_template.py:81-83 | a solution within domains stays within domains with the same members |
| Csp.FcKeeps | lab_06/constraints_template.py:71-79 | when a solution gives no neighbour the assigned value, forward checking succeeds and the solution stays within the pruned domains |
| Csp.CSP.FcSpares | lab_06/constraints_template.py:71-79 | when the constraint forbids equal values and no variable neighbours itself, forward checking the value a solution gives a variable succeeds and keeps the solution |
| Csp.SupportedKept | lab_06/constraints_template.py:100-103 | `revise` keeps a value of Xi that some value of Xj supports |
| Csp.CSP.ReviseSpares | lab_06/constraints_template.py:98-104 | on an edge of a simple graph, revising keeps every solution within the domains |
| Csp.CSP.EmptiedUnsolvable | lab_06/constraints_template.py:91-92 | domains that keep every solution but have an empty domain show there is no solution |
| Csp.CSP.SolvableKept | lab_06/constraints_template.py:112-114 | domains that keep every solution keep the problem solvable |
| Csp.ConsistentPruned | lab_06/constraints_template.py:71-79 | corrected: forward checking that keeps the values the constraint allows next to the assigned value; the set of variables is kept |
| Csp.ConsistentPrunedKeeps | lab_06/constraints_template.py:71-79 | corrected: when the constraint holds between the assigned value and a solution's neighbour values, the check succeeds and the solution stays within the pruned domains |
| Csp.CSP.PrunedSpares | lab_06/constraints_template.py:71-79 | corrected: whatever the constraint, checking the value a solution gives a variable succeeds and keeps the solution |
| Csp.AdjacentDiffer | lab_06/constraints_template.py:143-145 | with `adj_constraint`, a checked edge between distinct neighbours means different values |
| AustraliaMap.ColourDomains | lab_06/constraints_template.py:147-155 | every state's domain is the three colours |
| AustraliaMap.BordersSymmetric | lab_06/constraints_template.py:147-155 | the neighbour table lists the states, is symmetric and has no self-border |
| AustraliaMap.ProblemShape | lab_06/constraints_template.py:147-155 | the instance meets what the solver relies on: distinct variables, every neighbour a variable, duplicate-free domains |
| AustraliaMap.CreateAustraliaCsp | lab_06/constraints_template.py:147-155 | a fresh problem over the seven states, their borders and `adj_constraint`, every domain the three colours |
| AustraliaMap.ColouringProper | lab_06/verify_csp.py:6-10 | a complete assignment whose edges were checked colours every pair of bordering states differently |
| AustraliaMap.SolveAndCheck | lab_06/verify_csp.py:6-10 | whatever the switches, a solution is found, and it assigns every bordering pair of states two different colours |
| AustraliaMap.ColouringSolves | lab_06/constraints_template.py:147-155 | the instance has a solution drawn from the colour domains |
| AustraliaMap.SearchComplete | lab_06/constraints_template.py:143-155 | the borders form a simple graph and `adj_constraint` forbids equal colours, so forward checking and AC-3 lose no solution |
| EqualPair.PairSolvable | lab_06/constraints_template.py:26-37 | the two-variable instance with the constraint `==` is well-formed, simple, and {X: 1, Y: 1} solves it |
| EqualPair.FcLosesSolution | lab_06/constraints_template.py:71-79 | as written: forward checking the only value of either variable fails, so the search abandons it although a solution exists |
| EqualPair.CorrectedFcKeepsSolution | lab_06/constraints_template.py:71-79 | corrected: the check that consults the constraint succeeds for either variable |
| TicTacToe.NoWinner | lab_05/tictactoe_template.py:66-70 | `Winner` (`winner`) finds no player iff no winning line is complete |
| TicTacToe.WinnerIsFirstLine | lab_05/tictactoe_template.py:66-70 | `Winner` returns the owner of the first complete line |
| TicTacToe.UtilityFromLines | lab_05/tictactoe_template.py:34-41 | `UtilityOf` (`utility_of`) is +1 or -1 by the owner of the first complete line |
| TicTacToe.UtilityZero | lab_05/tictactoe_template.py:34-41 | `UtilityOf` is 0 iff no line is complete |
| TicTacToe.SuccessorsOf | lab_05/tictactoe_template.py:47-60 | the loop builds exactly the successor list |
| TicTacToe.SuccessorsSpec | lab_05/tictactoe_template.py:47-59 | each successor marks one free square for the player to move (`ToMove`: X when the counts are equal, otherwise O), squares increase, and every free square is covered |
| TicTacToe.SuccessorsUpToSpec | lab_05/tictactoe_template.py:55-59 | the same, for the squares below a bound |
| TicTacToe.SuccessorsFewer | lab_05/tictactoe_template.py:55-59 | every successor has one free square fewer |
| TicTacToe.NonTerminalMoves | lab_05/tictactoe_template.py:26-28 | `IsTerminal` (`is_terminal`) fails only on a board with a successor |
| TicTacToe.MaxValRange | lab_05/tictactoe_template.py:81-87 | `MaxVal`, the recursive `max_value`, is a finite game value in -1..1 on every board |
| TicTacToe.MinValRange | lab_05/tictactoe_template.py:89-95 | `MinVal`, the recursive `min_value`, is a finite game value in -1..1 on every board |
| TicTacToe.MaxOfMinsStep | lab_05/tictactoe_template.py:84-86 | one turn of the max loop takes the maximum with the next child's min value |
| TicTacToe.MinOfMaxsStep | lab_05/tictactoe_template.py:92-94 | one turn of the min loop takes the minimum with the next child's max value |
| TicTacToe.MaxValue | lab_05/tictactoe_template.py:81-87 | the loop returns the minimax max value `MaxVal` |
| TicTacToe.MinValue | lab_05/tictactoe_template.py:89-95 | the loop returns the minimax min value `MinVal` |
| TicTacToe.MinValues | lab_05/tictactoe_template.py:97 | the min value of each successor, in order |
| TicTacToe.MinmaxDecision | lab_05/tictactoe_template.py:77-98 | a free square whose min value is maximal among all moves, and strictly better than every lower square's |
| TicTacToe.ArgmaxChoice | lab_05/tictactoe_template.py:73-74 | `argmax` picks the first successor of maximal value |
| ExtInt.FirstMax | lab_05/tictactoe_template.py:73-74 | Python's `max` with a key: an index of maximal value, every earlier one strictly smaller |
| Nim.Successors | lab_05/nim_game_minimax.py:41-43 | one heap per removal of 1..3 stones, each smaller than the heap |
| Nim.SuccessorsExact | lab_05/nim_game_minimax.py:41-43 | a heap is a successor iff it is smaller by at most 3 |
| Nim.MaxOfMinsWins | lab_05/nim_game_minimax.py:23-54 | `MaxVal`, the recursive `max_value` over `IsTerminal` and `UtilityOf`: the max loop yields a win iff some child is a win |
| Nim.MinOfMaxsLosses | lab_05/nim_game_minimax.py:23-63 | `MinVal`, the recursive `min_value`: the min loop yields a loss iff some child is a loss |
| Nim.NimValues | lab_05/nim_game_minimax.py:23-63 | closed form of `MaxVal` and `MinVal`: the player to move loses exactly on heaps that are multiples of 4 |
| Nim.MaxOfMinsStep | lab_05/nim_game_minimax.py:52-53 | one turn of the max loop |
| Nim.MinOfMaxsStep | lab_05/nim_game_minimax.py:61-62 | one turn of the min loop |
| Nim.MaxValue | lab_05/nim_game_minimax.py:48-54 | the loop returns the minimax max value |
| Nim.MinValue | lab_05/nim_game_minimax.py:57-63 | the loop returns the minimax min value |
| Nim.RemovalValues | lab_05/nim_game_minimax.py:66-68 | the min value of the heap left by each removal |
| Nim.BestMove | lab_05/nim_game_minimax.py:65-69 | a legal removal whose remaining heap has maximal value, with ties to the smallest removal, and equal to the perfect-play removal |
| Nim.MovesChoice | lab_05/nim_game_minimax.py:66-69 | the first maximal index of the value list is the best removal |
| Nim.BestMoveIsPerfect | lab_05/nim_game_minimax.py:65-69 | the chosen removal is `n % 4` when that is not 0, and 1 otherwise |
| Nim.LeavesMultiple | lab_05/nim_game_minimax.py:65-69 | a removal leaves a multiple of 4 iff it removes `n % 4` |
| Nim.BestMoveWins | lab_05/nim_game_minimax.py:65-69 | on a winning heap the chosen removal leaves a multiple of 4 |
| Nim.LosingHeapMoves | lab_05/nim_game_minimax.py:65-69 | on a losing heap no removal beats removing one stone |
| Nim.WinningHeapMove | lab_05/nim_game_minimax.py:65-69 | on a winning heap the winning removal is the first maximal one |
| Nim.NimSuccessors | lab_05/nim_game_minimax.py:107-111 | (removed, remaining) pairs with 1..3 removed, matching the successor heaps |
| Nim.NimUtility | lab_05/nim_game_minimax.py:30-36 | `UtilityOf` for the player to move on the empty heap is a loss (-1), as `nim_utility` returns |
| AlphaBeta.MaxValue | lab_05/alpha_beta.py:33-44 | the loop returns the alpha-beta max value, which is fail-soft with respect to the minimax value (ABMaxSound) |
| AlphaBeta.MinValue | lab_05/alpha_beta.py:46-57 | the loop returns the alpha-beta min value, fail-soft with respect to the minimax value (ABMinSound) |
| AlphaBeta.ABMaxSound | lab_05/alpha_beta.py:33-44 | fail-soft property of `ABMax`, the recursive `max_value`: inside the window the result is the minimax value; at or below alpha, or at or above beta, it bounds it on the correct side |
| AlphaBeta.ABMinSound | lab_05/alpha_beta.py:46-57 | the same fail-soft property of `ABMin`, the recursive `min_value` |
| AlphaBeta.ABMaxLoopSound | lab_05/alpha_beta.py:39-44 | the child loop with the beta cut and the alpha update is fail-soft against the minimax value of the remaining children |
| AlphaBeta.ABMinLoopSound | lab_05/alpha_beta.py:52-57 | the same for the min loop with the alpha cut |
| AlphaBeta.MaxCut | lab_05/alpha_beta.py:41-42 | a beta cut returns a value that is a sound lower bound |
| AlphaBeta.MinCut | lab_05/alpha_beta.py:54-55 | an alpha cut returns a value that is a sound upper bound |
| AlphaBeta.MaxPrefixGrows | lab_05/alpha_beta.py:39-44 | the maximum over more children is no smaller |
| AlphaBeta.MinPrefixShrinks | lab_05/alpha_beta.py:52-57 | the minimum over more children is no larger |
| AlphaBeta.ChildSmaller | lab_05/alpha_beta.py:39-40 | the recursion's measure drops at each child, so the search terminates on a finite game |
| AlphaBeta.FullWindowExact | lab_05/alpha_beta.py:62-65 | with the window (-inf, +inf) the fail-soft result is the minimax value |
| AlphaBeta.RootChild | lab_05/alpha_beta.py:62-65 | the value of a root child under the full window is its exact minimax value |
| AlphaBeta.AlphaBetaSearch | lab_05/alpha_beta.py:21-70 | no child is better than the returned value; no action means the initial infinity was never beaten; an action is the first child strictly better than all earlier ones, with its value |
| Breakthrough.StartBoard | lab_05/breakthrough_game_alphabeta.py:23-28 | row 1 all Black, row N-2 all White, every other square empty |
| Breakthrough.Apply | lab_05/breakthrough_game_alphabeta.py:43-46 | the source square empties, the target holds the moved piece, nothing else changes |
| Breakthrough.Succ | lab_05/breakthrough_game_alphabeta.py:31-48 | the loops return exactly the listed steps, in board order |
| Breakthrough.AllStepsExact | lab_05/breakthrough_game_alphabeta.py:31-48 | a step is in `AllSteps` (`succ` on values) iff it is `Legal`, a straight or diagonal move of the piece on its square, with the board it leads to |
| Breakthrough.RowsStepsExact | lab_05/breakthrough_game_alphabeta.py:33-48 | the steps of the first rows are exactly the legal steps from those rows |
| Breakthrough.SuccMixesSides | lab_05/breakthrough_game_alphabeta.py:31-48 | as written, the list for the start board contains a Black move |
| Breakthrough.SideStepsExact | lab_05/breakthrough_game_alphabeta.py:31-48 | corrected: a step is listed for a side iff it is legal and moves a piece of that side |
| Breakthrough.StepsOf | lab_05/breakthrough_game_alphabeta.py:31-48 | filtering by the mover keeps exactly the steps of that side's pieces |
| Breakthrough.PositionSteps | lab_05/breakthrough_game_alphabeta.py:31-48 | corrected: the side-aware successors offer exactly the side's steps and hand the move to the opponent |
| Breakthrough.Utility | lab_05/breakthrough_game_alphabeta.py:55-58 | +inf iff White reached the top row; -inf iff not and Black reached the bottom row; otherwise 0 |
| Breakthrough.UtilityDecided | lab_05/breakthrough_game_alphabeta.py:50-58 | an infinite utility happens only on a terminal board |
| Breakthrough.TerminalByCounts | lab_05/breakthrough_game_alphabeta.py:50-53 | `Terminal` (`terminal`) holds iff a side reached its goal row or a side has no pieces |
| Breakthrough.StepCounts | lab_05/breakthrough_game_alphabeta.py:43-46 | a move keeps the mover's piece count and removes one opposing piece exactly when it is diagonal |
| Breakthrough.AdvanceWIsMax | lab_05/breakthrough_game_alphabeta.py:62 | the White advance is the largest distance any White piece has covered |
| Breakthrough.AdvanceBIsMax | lab_05/breakthrough_game_alphabeta.py:63 | the Black advance is the largest row of any Black piece |
| Breakthrough.HeuristicRange | lab_05/breakthrough_game_alphabeta.py:60-65 | `Heuristic` (`heuristic`) is bounded by the material term plus the board height |
| Breakthrough.StartBalanced | lab_05/breakthrough_game_alphabeta.py:23-65 | the start board is not terminal, and its utility and heuristic are 0 |
| Breakthrough.BestMove | lab_05/breakthrough_game_alphabeta.py:70-80 | as written: a legal move, of either colour, whose depth-4 value in the search over `succ` is maximal, first on ties; none when `succ` lists nothing or every listed move is valued -inf |
| Breakthrough.BoardSteps | lab_05/breakthrough_game_alphabeta.py:70-73 | the engine's successors are exactly the moves and boards `succ` lists, in order |
| Breakthrough.SourceSearchLegal | lab_05/breakthrough_game_alphabeta.py:70-80 | as written: the engine's move is a legal move of the board |
| Breakthrough.SourceSearchBest | lab_05/breakthrough_game_alphabeta.py:70-80 | as written: the engine's guarantees make the move's value maximal over `succ`, first on ties, and no move means every listed move is valued -inf |
| Breakthrough.CorrectedBestMove | lab_05/breakthrough_game_alphabeta.py:70-80 | corrected: a legal move of a White piece whose depth-4 value is maximal among White's moves, first on ties; none when White has no move or every White move is valued -inf |
| Breakthrough.SearchLegal | lab_05/breakthrough_game_alphabeta.py:70-80 | corrected: the engine's move is a legal move of a White piece |
| Breakthrough.SearchBest | lab_05/breakthrough_game_alphabeta.py:70-80 | corrected: the engine's guarantees make the move's value maximal among White's moves, first on ties, and no move means every White move is valued -inf |
| Breakthrough.GameSteps | lab_05/breakthrough_game_alphabeta.py:70-80 | corrected: the engine's successors of a White position are White's steps |
| Breakthrough.BestIsMax | lab_05/breakthrough_game_alphabeta.py:70-80 | corrected: the returned value bounds the depth-4 value of every White move |
| SearchNodes.Chain | lab_02/search.py:31-36 | the path runs from a root node to the node, each node the parent of the next |
| SearchNodes.Path | lab_02/search.py:31-36 | the parent-following loop returns that chain, root first |
| SearchNodes.ChainIsWalk | lab_02/search.py:31-36 | for a node grown by expansion, the path's states are a walk from the start ending at its state, with depth + 1 nodes |
| TreeSearch.Insert | lab_02/search.py:43-49 | DFS puts the node at the front, BFS at the rear |
| TreeSearch.InsertAll | lab_02/search.py:52-56 | BFS appends the nodes; DFS puts them at the front in reverse |
| TreeSearch.RemoveFirst | lab_02/search.py:59-60 | the front node and the rest |
| TreeSearch.StackOrder | lab_02/search.py:43-60 | under DFS the node inserted last is removed first |
| TreeSearch.QueueOrder | lab_02/search.py:43-60 | under BFS the oldest node is removed first |
| TreeSearch.Expand | lab_02/search.py:69-73 | one child per successor, with the node as parent and depth one more |
| TreeSearch.SuccessorsClosed | lab_02/search.py:12-19 | `Successors` (`successor_fn`, lines 64-65) stays within the graph: every successor is a state |
| TreeSearch.RankDrops | lab_02/search.py:12-19 | the letter graph is acyclic: every edge of `Successors` lowers the rank |
| TreeSearch.FringeShrinks | lab_02/search.py:76-86 | the fringe's total subtree size drops at every turn, so the search ends |
| TreeSearch.Search | lab_02/search.py:76-86 | a path found is a walk from A ending at J, with depth + 1 nodes |
| GraphSearch.Insert | lab_02/exercise_2.py:38-39 | rear insert |
| GraphSearch.InsertAll | lab_02/exercise_2.py:41-42 | the nodes are appended after the queue |
| GraphSearch.RemoveFirst | lab_02/exercise_2.py:44-45 | the front node and the rest |
| GraphSearch.FifoOrder | lab_02/exercise_2.py:38-45 | appending then popping returns the old front |
| GraphSearch.Expand | lab_02/exercise_2.py:48-49 | one child per successor, with parent and depth |
| GraphSearch.Search | lab_02/exercise_2.py:51-61 | a path found is a shortest walk to the goal; no path means no walk reaches it; no state is expanded twice |
| GraphSearch.ShortestAtFront | lab_02/exercise_2.py:55-57 | when the goal is popped, no walk to it is shorter |
| GraphSearch.NoGoalWalk | lab_02/exercise_2.py:61 | an empty fringe means no walk reaches the goal |
| GraphSearch.BfsExplore | lab_02/exercise_2.py:57-60 | expanding a new state keeps the breadth-first invariant |
| GraphSearch.BfsSkip | lab_02/exercise_2.py:57 | skipping an explored state keeps the breadth-first invariant |
| GraphSearch.ExploreStep | lab_02/exercise_2.py:57-59 | marking a new state explored shrinks the unexplored part of the universe |
| GraphSearch.ExpandedFit | lab_02/homework.py:54-62 | distinct expansions within the universe number at most its size |
| VacuumBfs.AllStates | lab_02/exercise_2.py:13-22 | every state is a key of the listed table (which has 8 keys) and of the corrected one, so `Successors` (`STATE_SPACE[state]`, line 49) never misses |
| VacuumBfs.ListedEntryBreaksPhysics | lab_02/exercise_2.py:20 | as written, the table lets sucking on B clean A |
| VacuumBfs.SuccessorPhysics | lab_02/exercise_2.py:13-22 | corrected: every transition of the corrected table is a move or a suck at the robot's square, and nothing gets dirty |
| VacuumBfs.ShortWalk | lab_02/exercise_2.py:13-25 | Suck on B, move to A, Suck on A is a walk from the start to the goal, in the listed and in the corrected table |
| VacuumBfs.WalkWork | lab_02/exercise_2.py:13-25 | in the listed table, no walk reaches the goal in fewer than three steps |
| VacuumBfs.StepWork | lab_02/exercise_2.py:13-22 | every listed transition, the faulty one included, does at most one unit of the remaining work |
| VacuumBfs.OnlyShortWalk | lab_02/exercise_2.py:13-25 | that plan is the only four-state walk to the goal in the listed table |
| VacuumBfs.Solve | lab_02/exercise_2.py:51-61 | on the listed table the search returns exactly that plan, a shortest walk to the goal, expanding at most 8 distinct states |
| RiverCrossing.OppositeFlips | lab_02/homework.py:12-13 | `Opposite` (`opposite`) applied twice is the identity, and never gives the same bank |
| RiverCrossing.IsValidSafe | lab_02/homework.py:15-20 | `IsValid` (`is_valid`) holds iff the farmer guards the goat or the goat is alone on its bank |
| RiverCrossing.Kept | lab_02/homework.py:22-31 | exactly the valid states among a list of tried crossings, as `successor_fn` filters `Moves`, its four crossings |
| RiverCrossing.Successors | lab_02/homework.py:22-31 | at most four successors |
| RiverCrossing.SuccessorsExact | lab_02/homework.py:22-31 | a successor iff a valid state reached by the farmer crossing alone or with one item from the same bank |
| RiverCrossing.SevenCrossings | lab_02/homework.py:34 | a walk of seven crossings solves the puzzle |
| RiverCrossing.WalkValid | lab_02/homework.py:15-31 | every state on a walk from the start is valid |
| RiverCrossing.Solve | lab_02/homework.py:54-62 | the search finds a shortest walk of at most 8 states, all valid |
| AStar.Push | lab_03/astar_vacuum_cleaner.py:54 | the priority is g + h |
| AStar.Children | lab_03/astar_vacuum_cleaner.py:49-54 | only unexplored successors are pushed |
| AStar.ChildQueued | lab_03/astar_vacuum_cleaner.py:49-54 | every unexplored successor is pushed |
| AStar.ChildSource | lab_03/astar_vacuum_cleaner.py:49-54 | every pushed child comes from an unexplored successor |
| AStar.PushChildren | lab_03/astar_vacuum_cleaner.py:49-54 | the loop appends exactly those children |
| AStar.Actions | lab_03/astar_vacuum_cleaner.py:20-22 | the action list of a route |
| AStar.Admissible | lab_03/astar_vacuum_cleaner.py:28-56 | a consistent heuristic underestimates the remaining cost of a goal route |
| AStar.GoalFound | lab_03/astar_vacuum_cleaner.py:46-47 | a popped goal was reached along its path at its cost, and, with a consistent heuristic, no goal route is cheaper |
| AStar.NoGoalRoute | lab_03/astar_vacuum_cleaner.py:56 | an empty frontier means no route reaches a goal |
| AStar.SkipStep | lab_03/astar_vacuum_cleaner.py:40-42 | skipping an explored state keeps the search invariant |
| AStar.ExploreTurn | lab_03/astar_vacuum_cleaner.py:43-54 | expanding a new state keeps the search invariant |
| AStar.Search | lab_03/astar_vacuum_cleaner.py:28-56 | a finite cost is reached by a goal along the path; with a consistent heuristic it is optimal; +inf means no goal route; the expansion count is the number of explored states |
| MinQueue.PopMin | lab_03/astar_vacuum_cleaner.py:40 | `heappop`: an entry of least priority, and the rest of the queue |
| MinQueue.PopLeast | lab_03/informed_search.py:88 | `heappop` on real priorities: an entry of least priority, and the rest |
| MinQueue.Without | lab_03/astar_vacuum_cleaner.py:40 | removing one entry keeps the others in order |
| VacuumAStar.Successors | lab_03/astar_vacuum_cleaner.py:71-91 | at most three successors |
| VacuumAStar.SuccessorMeaning | lab_03/astar_vacuum_cleaner.py:71-91 | each step costs 1; Suck cleans a dirty current square; Right and Left move by one |
| VacuumAStar.SuccessorsOffered | lab_03/astar_vacuum_cleaner.py:78-89 | Suck is offered iff the square is dirty, Right iff not at D, Left iff not at A |
| VacuumAStar.GoalIffZero | lab_03/astar_vacuum_cleaner.py:67-68 | `Goal` (`vac_goal_test`) holds iff `Heuristic` is 0 |
| VacuumAStar.HeuristicConsistent | lab_03/astar_vacuum_cleaner.py:94-96 | `Heuristic` (`vac_heuristic`), the dirty-square count, is consistent |
| VacuumAStar.UniverseClosed | lab_03/astar_vacuum_cleaner.py:59-91 | the 64 states are closed under successors |
| VacuumAStar.SevenNeeded | lab_03/astar_vacuum_cleaner.py:62-68 | every goal route from the start costs at least 7 |
| VacuumAStar.SevenEnough | lab_03/astar_vacuum_cleaner.py:62-68 | a route of cost 7 reaches the goal |
| VacuumAStar.Solve | lab_03/astar_vacuum_cleaner.py:100-106 | A* returns a 7-action plan reaching the goal at cost 7 |
| Informed.TotalCost | lab_03/informed_search.py:31 | weight 0 gives h; weight 1 gives g + h |
| Informed.MakeNode | lab_03/informed_search.py:26-31 | the node holds its fields and the weighted total |
| Informed.Chain | lab_03/informed_search.py:33-42 | the path ends at the node |
| Informed.ChainRoute | lab_03/informed_search.py:33-42 | the path of a node built by expansion follows graph edges from the start |
| Informed.PathOf | lab_03/informed_search.py:33-42 | the loop returns that path |
| Informed.Child | lab_03/informed_search.py:58-69 | a child follows an edge, with the edge cost added and the target's heuristic |
| Informed.Children | lab_03/informed_search.py:51-71 | one child per neighbour |
| Informed.Expand | lab_03/informed_search.py:51-71 | the children with the weight chosen by the algorithm name |
| Informed.ChildPriority | lab_03/informed_search.py:51-67 | under `Weight` (the f-weight for A*, 0 otherwise), greedy orders by h and A* with weight 1 orders by g + h |
| Informed.PushAll | lab_03/informed_search.py:98-99 | each child is queued with its total cost |
| Informed.Search | lab_03/informed_search.py:74-103 | a result is a route from the start to a goal state; none means no walk reaches a goal; expansions count distinct explored states |
| Informed.GoalReachable | lab_03/informed_search.py:3-19 | the graph has a walk from A to goal L |
| Informed.RunComparison | lab_03/informed_search.py:106-118 | both greedy and A* return a route from A to a goal |
| GaBits.FitnessIsValue | lab_04/ga_template.py:24-28 | the fitness is the binary value of the bits |
| GaBits.ValueBound | lab_04/ga_template.py:24-28 | the fitness is below 2 to the number of bits |
| GaBits.FitnessRoundTrip | lab_04/ga_template.py:24-28 | fitness and binary expansion are inverse |
| GaBits.TargetIsMaximum | lab_04/ga_template.py:15-19 | 7 is the highest 3-bit fitness, reached only by 111 |
| GaBits.Reproduce | lab_04/ga_template.py:41-44 | the child takes the mother's prefix and the father's suffix |
| GaBits.CrossoverConserves | lab_04/ga_template.py:41-44 | the two crossovers at one point together keep every position's pair of genes |
| GaBits.CrossoverSelf | lab_04/ga_template.py:41-44 | crossing an individual with itself gives it back |
| GaBits.Mutate | lab_04/ga_template.py:47-52 | exactly the chosen bit flips |
| GaBits.MutateTwice | lab_04/ga_template.py:47-52 | flipping the same bit twice is the identity |
| GaBits.MutateFitness | lab_04/ga_template.py:47-52 | a flip changes the fitness by the bit's place value |
| GaQueens.MaxFitness | lab_04/ga_queens.py:35 | the number of queen pairs |
| GaQueens.PairsCard | lab_04/ga_queens.py:35 | twice the pair count is n(n-1) |
| GaQueens.OrderOneXover | lab_04/ga_queens.py:41-54 | the loops place dad's segment and fill the other slots with mom's missing genes in order |
| GaQueens.OrderOneXoverShape | lab_04/ga_queens.py:41-54 | the child is the fill's prefix, dad's segment, then the fill's rest |
| GaQueens.OrderOneXoverPerm | lab_04/ga_queens.py:41-54 | the child of two permutations is a permutation with dad's segment in place |
| GaQueens.FillCount | lab_04/ga_queens.py:48-53 | the fill and the segment together hold exactly mom's genes |
| GaQueens.SwapMutate | lab_04/ga_queens.py:56-60 | two genes swap, the rest stay, and a permutation stays a permutation |
| VacuumWorld.Effect | lab_01/reflex_vacuum_agent_homework.py:40-54 | only the robot's square can change, and only to Clean; a bogus action changes nothing; Right and Left move by one within the row |
| VacuumWorld.World.constructor | lab_01/reflex_vacuum_agent_homework.py:29-30 | every square starts with the initial status, the robot on its start square |
| VacuumWorld.World.Sensors | lab_01/reflex_vacuum_agent_homework.py:34-37 | the robot's square and its status |
| VacuumWorld.World.Actuators | lab_01/reflex_vacuum_agent_homework.py:40-54 | the world becomes the effect of the action |
| VacuumWorld.Name | lab_01/reflex_vacuum_agent.py:15-17 | the status spelled as the source spells it |
| ReflexAgents.HomeworkAccepted | lab_01/reflex_vacuum_agent_homework.py:58-65 | every action of `HomeworkAgent` is valid: a dirty square is cleaned, a clean one is left for a neighbour |
| ReflexAgents.TwoSquareChoice | lab_01/reflex_vacuum_agent.py:23-40 | `TwoSquareAgent` chooses Suck iff dirty; otherwise BOGUS swaps the two moves |
| ReflexAgents.TwoSquareMoves | lab_01/reflex_vacuum_agent.py:35-37 | with the correct rules a clean square sends the robot to the other square |
| ReflexAgents.BogusMovesRefused | lab_01/reflex_vacuum_agent.py:38-40 | with BOGUS the moves point off the edge and the actuators refuse them |
| ReflexAgents.FourSquareAccepted | reflex_vacuum_agent.py:25-56 | `FourSquareAgent` sucks on dirt and otherwise moves, and the actuators accept every action |
| ReflexAgents.FourSquareRound | reflex_vacuum_agent.py:103-107 | one step of the run loop keeps four squares and a square on the board |
| ReflexAgents.FourSquareRun | reflex_vacuum_agent.py:89-109 | a run of steps keeps four squares and a square on the board |
| ReflexAgents.FourSquareNeverReachesA | reflex_vacuum_agent.py:41-56 | contrary to the documented sweep: started away from A with A dirty, the agent never returns to A, so A stays dirty |
| RuleAgents.RuleMatch | lab_01/simple_reflex_agent.py:51-53 | a rule number iff the percept is a key, with the mapped number |
| RuleAgents.Lab01Choice | lab_01/simple_reflex_agent.py:27-59 | `Lab01Agent` chooses Suck on dirt, Left on a clean A, Right on a clean B, NoOp without a rule |
| RuleAgents.Lab01Safe | lab_01/simple_reflex_agent.py:68-80 | the Crash and Self-destruct actions are refused, and a two-square step cleans at most |
| RuleAgents.RootChoice | simple_reflex_agent.py:14-51 | every two-square percept has a rule, and `RootAgent` acts as in lab_01 |
| RuleAgents.RootSafe | simple_reflex_agent.py:58-71 | the same safety for the root agent |
| TableAgents.Lookup | lab_01/table_driven_agent.py:35-37 | an action iff the history is a key, with the mapped action |
| TableAgents.TablesShort | table_driven_agent.py:16-26 | both tables stop at three percepts, so a longer history finds no action |
| TableAgents.TableDrivenAgent.constructor | lab_01/table_driven_agent.py:20 | an empty percept history |
| TableAgents.TableDrivenAgent.Act | lab_01/table_driven_agent.py:39-42 | the percept is appended and the action is the table entry for the history, none after three percepts |
| TableAgents.MinEntriesSinglePercept | lab_01/table_driven_agent.py:45-47 | the count of distinct single percepts |
| TableAgents.HistoriesExact | lab_01/table_driven_agent.py:49-51 | the histories of length T are exactly the sequences of T percepts |
| TableAgents.HistoriesCard | lab_01/table_driven_agent.py:49-51 | there are 4^T of them |
| TableAgents.EntriesForTSteps | lab_01/table_driven_agent.py:49-51 | the number of histories of length T |
| ModelAgent.NearestDirty | lab_01/reflex_agent_with_state.py:67-72 | none iff the model is all clean; otherwise a dirty square at least as close as any other, the lowest on ties |
| ModelAgent.NearestBelowSpec | lab_01/reflex_agent_with_state.py:69-72 | the scan over the first squares meets the same specification |
| ModelAgent.DecideMeaning | lab_01/reflex_agent_with_state.py:75-92 | `Decide` gives Suck iff dirty; NoOp iff clean everywhere in the model; Right or Left toward the nearest dirty square |
| ModelAgent.ModelBasedAgent.constructor | lab_01/reflex_agent_with_state.py:64 | every square of the model starts with the initial status |
| ModelAgent.ModelBasedAgent.Act | lab_01/reflex_agent_with_state.py:75-92 | the model records the percept and the action is the decision |
| ModelAgent.DirtyCount | lab_01/reflex_agent_with_state.py:105 | 0 iff all squares are clean |
| ModelAgent.RoundProgress | lab_01/reflex_agent_with_state.py:103-110 | a step keeps the model sound and lowers the progress measure |
| ModelAgent.Idle | lab_01/reflex_agent_with_state.py:89-90 | once the model is all clean, the world is clean and nothing moves |
| ModelAgent.EventuallyIdle | lab_01/reflex_agent_with_state.py:96-110 | from any sound configuration the world becomes clean and stays put |
| ModelAgent.CleansFromAnyStart | lab_01/reflex_agent_with_state.py:96-110 | from any world and start square, with the initial model, the world is eventually clean |
| StateAgent.NewState | reflex_agent_with_state.py:84-106 | the all-clean state iff the model holds every square clean; always a rule key |
| StateAgent.ChooseMeaning | reflex_agent_with_state.py:109-123 | `Choose` gives NoOp iff the model is all clean; otherwise Suck on dirt, Right before D, Left on D |
| StateAgent.ReflexAgentWithState.constructor | reflex_agent_with_state.py:27-29 | empty state, no action, unknown model |
| StateAgent.ReflexAgentWithState.UpdateState | reflex_agent_with_state.py:84-106 | the model records the percept and the state is derived from it |
| StateAgent.ReflexAgentWithState.Act | reflex_agent_with_state.py:109-123 | the state and action are updated and the action is the chosen one |
| StateAgent.NeverReachesA | reflex_agent_with_state.py:38-53 | contrary to the documented support for any start: started away from A with A dirty, the agent never reaches A, so A stays dirty and unknown |
| Seqs.RemoveFirst | lab_06/constraints_template.py:75 | `list.remove`: deletes the first occurrence |
| Seqs.RemoveFirstKeeps | lab_06/constraints_template.py:75 | `list.remove(x)` keeps every other value |
| Seqs.Filter | lab_06/constraints_template.py:100-103 | the filtered list is never longer than the list |
| Seqs.FilterMembers | lab_06/constraints_template.py:100-103 | a value is kept iff it is in the list and satisfies the predicate |
| Seqs.SortByKey | lab_06/constraints_template.py:66 | `sorted` with a key: a stable permutation ordered by key |

## Left out

- Printing, interactive play and the demo drivers (`run`, `run_demo`, `main`, `play`, `human_move`, `render`, `display`, the trace printing in `INFORMED_SEARCH`): output only.
- lab_08, lab_09 and lab_10 (Bayesian networks, hidden Markov models, decision trees): not part of this model.
- The random parts of the genetic algorithms (`random_selection`, `tournament`, `random_chrom`, `random_individual`, the generation loops, argument parsing, plotting): randomness is not modelled. The crossover point, the slice bounds and the mutated positions are parameters instead.
- GaQueens.OrderOneXover: the source draws `a < b`; the model accepts any `a <= b`.
- GaQueens.SwapMutate: the source draws `i != j`; the model accepts any pair.
- lab_06/csp_south_america.py is not part of this model. The colouring check uses the Australia instance instead.
- lab_05/nim_game_alphabeta.py is not part of this model. Its search is the one of lab_05/alpha_beta.py.
- Float infinities are modelled as the extended integers of `ExtInt`, and `f_weight` as a `real`.
- MinQueue.PopMin: ties between equal priorities go to the first least entry. The model does not capture `heapq`'s own tie order.
- MinQueue.PopLeast: the same.
- `deepcopy` and `lru_cache` are value semantics or caching, with nothing to model.
- GraphSearch.Search: termination relies on a finite set of states closed under successors. This is given as a ghost parameter; the source simply runs.
- AStar.Search: the same.
- Informed.Search: terminates because the graph is finite; optimality is not stated.
- TicTacToe.MinmaxDecision: requires a free square, since `max` of an empty list raises.
- Nim.BestMove: requires a non-empty heap, for the same reason.
- Csp.CSP.BacktrackingSearch: the value of the `steps` counter is not stated.
- Csp.CSP.Revise: equality with the filter is stated for Xi different from Xj only.
- Csp.CSP.Ac3: does not state arc consistency on success. Keeping every solution, and "false means no solution", are stated for simple constraint graphs only: symmetric neighbour lists, no variable its own neighbour.
- Csp.CSP.Ac3Visit: keeps every solution on simple graphs only, as for Ac3.
- Csp.CSP.Revise: keeps every solution for an edge of a simple graph only.
- Csp.CSP.Backtrack: with forward checking, "failure means no solution" needs a constraint that forbids equal values and no self-neighbours. Without them the source's `forward_check` can lose a solution (see Findings). The search still runs the check as written; the corrected check `Csp.ConsistentPruned` is proved to keep every solution but is not part of the search.
- Csp.CSP.TryValue: the same condition as Backtrack.
- Csp.CSP.CheckedDescend: the same.
- Csp.CSP.PrunedDescend: the same.
- Csp.CSP.BacktrackingSearch: the same, and with AC-3 also a simple graph.
- Csp.CSP.Covered: the search requires a neighbour list and a domain for every variable, and every neighbour to be a variable. The source raises `KeyError` on a missing entry; the model does not reproduce that error.
- Csp.CSP.Shape: requires the variables to be listed once. With a repeated variable `len(A) == len(V)` never holds, so `min` is eventually called on an empty list and raises `ValueError`; the model does not reproduce that error.
- Csp.CSP.Valid: AC-3 requires duplicate-free domains, a domain being a set of values. With a repeated value, `revise` removes only one copy per unsupported entry; the model does not cover that case.
- TreeSearch.Search: does not prove that a path is found.
- Breakthrough.PositionSteps: models the corrected, side-aware search. `best_move` as written passes `succ` (Breakthrough.BoardSteps, used by Breakthrough.BestMove).
- Breakthrough.GameSteps: the corrected search, as for PositionSteps.
- Breakthrough.CorrectedBestMove: the corrected search; `best_move` as written is Breakthrough.BestMove.
- Breakthrough.SearchLegal: the corrected search.
- Breakthrough.SearchBest: the corrected search.
- Breakthrough.BestIsMax: the corrected search.
- VacuumBfs.SuccessorPhysics: holds for the corrected table only. The listed table breaks it (VacuumBfs.ListedEntryBreaksPhysics), and the search runs on the listed table.
- Seqs.RemoveFirst: returns the list unchanged when the value is absent (Python raises). Every call in the model removes a present value.
- The root `Actuators` have no valid-action filter. Every action the root agents produce is one they handle, so the effect is the same.
- Sensors and actuators are methods on the `World` object instead of module globals.
- AlphaBeta.AlphaBetaSearch: termination without a depth limit assumes a ranking of the game's states. Breakthrough uses the depth limit.

## Findings

| source | as written | input that shows it | evidently intended | confidence | as-written member | corrected member |
|---|---|---|---|---|---|---|
| lab_05/breakthrough_game_alphabeta.py:31-48 | `succ` lists the moves of every piece on the board, whichever side is to move, so `best_move` can choose an opponent's move for White | the start board: Black's step (1,0) to (2,0) is in the list offered to White | only the moves of the side to move | high, not executed | Breakthrough.SuccMixesSides | Breakthrough.SideStepsExact |
| lab_02/exercise_2.py:20 | the state table lets Suck on B, with A dirty and B clean, produce (B, Clean, Clean) | (B, Dirty, Clean): the listed successor cleans A while the robot is on B | sucking changes only the robot's own square | high, not executed | VacuumBfs.ListedEntryBreaksPhysics | VacuumBfs.SuccessorPhysics |
| lab_06/constraints_template.py:71-79 | `forward_check` deletes the assigned value from every neighbour without consulting the constraint, so under a constraint that allows equal values it prunes values a solution needs | X and Y each other's neighbours, domains [1] and [1], constraint `==`: forward checking X=1 (or Y=1) empties the other domain, so the search with forward checking returns None although {X: 1, Y: 1} solves the problem | remove the neighbour values inconsistent with the assignment, as the docstring at line 72 says | high, not executed | EqualPair.FcLosesSolution | Csp.CSP.PrunedSpares |
