/** The four-square vacuum world of lab_03/astar_vacuum_cleaner.py, solved
    with the generic A* search. Squares A, B, C, D lie in a row; a state is
    the robot's square (an index into `POSITIONS`) and the status of each
    square. Every action costs 1 and the heuristic counts dirty squares. */
module VacuumAStar {
  import opened ExtInt
  import opened Seqs
  import AStar

  datatype Status = Clean | Dirty

  datatype Action = Suck | Right | Left

  /** `(location, A, B, C, D)`: `loc` is 0 for A up to 3 for D. */
  datatype State = State(loc: nat, squares: seq<Status>)

  type VacState = s: State | s.loc < 4 && |s.squares| == 4 witness State(0, [Dirty, Dirty, Dirty, Dirty])

  /** `vac_initial_state`: at A, every square dirty. */
  const Initial: VacState := State(0, [Dirty, Dirty, Dirty, Dirty])

  /** `vac_goal_test`: every square clean. */
  predicate Goal(s: VacState) {
    forall i :: 0 <= i < 4 ==> s.squares[i] == Clean
  }

  /** `vac_successors`: Suck when the robot's square is dirty, Right unless
      at D, Left unless at A, in that order, each at cost 1. */
  function Successors(s: VacState): (r: seq<AStar.Edge<Action, VacState>>)
    ensures |r| <= 3
  {
    (if s.squares[s.loc] == Dirty then [(Suck, State(s.loc, s.squares[s.loc := Clean]), 1)] else []) +
    (if s.loc < 3 then [(Right, State(s.loc + 1, s.squares), 1)] else []) +
    (if s.loc > 0 then [(Left, State(s.loc - 1, s.squares), 1)] else [])
  }

  /** The number of dirty squares in `sq`. */
  function DirtyCount(sq: seq<Status>): (n: nat)
    ensures n <= |sq|
  {
    if sq == [] then 0 else (if sq[0] == Dirty then 1 else 0) + DirtyCount(sq[1..])
  }

  /** `vac_heuristic`: the number of dirty squares. */
  function Heuristic(s: VacState): nat {
    DirtyCount(s.squares)
  }

  // ---------------------------------------------------------------------
  // The actions.

  /** Every listed successor costs 1; Suck is listed only on a dirty square
      and cleans it and nothing else; Right and Left move one square and
      change no status. */
  lemma SuccessorMeaning(s: VacState, e: AStar.Edge<Action, VacState>)
    requires e in Successors(s)
    ensures e.2 == 1
    ensures e.0 == Suck ==> s.squares[s.loc] == Dirty && e.1.loc == s.loc && e.1.squares == s.squares[s.loc := Clean]
    ensures e.0 == Right ==> e.1.loc == s.loc + 1 && e.1.squares == s.squares
    ensures e.0 == Left ==> e.1.loc + 1 == s.loc && e.1.squares == s.squares
  {
  }

  /** Conversely each applicable action is listed. */
  lemma SuccessorsOffered(s: VacState)
    ensures s.squares[s.loc] == Dirty <==> exists e :: e in Successors(s) && e.0 == Suck
    ensures s.loc < 3 <==> exists e :: e in Successors(s) && e.0 == Right
    ensures s.loc > 0 <==> exists e :: e in Successors(s) && e.0 == Left
  {
    var r := Successors(s);
    if s.squares[s.loc] == Dirty {
      assert r[0].0 == Suck;
    }
    if s.loc < 3 {
      var e: AStar.Edge<Action, VacState> := (Right, State(s.loc + 1, s.squares), 1);
      assert e in r;
    }
    if s.loc > 0 {
      var e: AStar.Edge<Action, VacState> := (Left, State(s.loc - 1, s.squares), 1);
      assert e in r;
    }
  }

  // ---------------------------------------------------------------------
  // The heuristic.

  /** No dirty square is counted exactly when all are clean. */
  lemma {:induction false} DirtyCountZero(sq: seq<Status>)
    ensures DirtyCount(sq) == 0 <==> forall i :: 0 <= i < |sq| ==> sq[i] == Clean
  {
    if sq != [] {
      var t := sq[1..];
      DirtyCountZero(t);
      assert forall i :: 0 <= i < |t| ==> t[i] == sq[i + 1];
      if sq[0] == Clean && forall i :: 0 <= i < |t| ==> t[i] == Clean {
        forall i | 0 <= i < |sq|
          ensures sq[i] == Clean
        {
          if i > 0 {
            assert sq[i] == t[i - 1];
          }
        }
      }
    }
  }

  /** Cleaning a dirty square lowers the count by one. */
  lemma {:induction false} DirtyCountClean(sq: seq<Status>, i: nat)
    requires i < |sq| && sq[i] == Dirty
    ensures DirtyCount(sq[i := Clean]) + 1 == DirtyCount(sq)
  {
    var t := sq[i := Clean];
    if i == 0 {
      assert t[1..] == sq[1..];
    } else {
      assert t[1..] == sq[1..][i - 1 := Clean];
      DirtyCountClean(sq[1..], i - 1);
    }
  }

  /** The heuristic is zero exactly on the goal states. */
  lemma GoalIffZero(s: VacState)
    ensures Goal(s) <==> Heuristic(s) == 0
  {
    DirtyCountZero(s.squares);
  }

  /** The heuristic is consistent: no step lowers it by more than its cost,
      and it is zero on the goals. */
  lemma HeuristicConsistent()
    ensures AStar.Consistent(Heuristic, Goal, Successors)
  {
    forall s: VacState, e | e in Successors(s)
      ensures Heuristic(s) <= e.2 + Heuristic(e.1)
    {
      SuccessorMeaning(s, e);
      if e.0 == Suck {
        DirtyCountClean(s.squares, s.loc);
      }
    }
    forall s: VacState | Goal(s)
      ensures Heuristic(s) == 0
    {
      GoalIffZero(s);
    }
  }

  // ---------------------------------------------------------------------
  // The state space.

  const Statuses: set<Status> := {Clean, Dirty}

  /** The 64 states. */
  const Universe: set<VacState> :=
    set l: nat, a, b, c, d | l < 4 && a in Statuses && b in Statuses && c in Statuses && d in Statuses :: State(l, [a, b, c, d])

  lemma InStatuses(x: Status)
    ensures x in Statuses
  {
    match x
    case Clean =>
    case Dirty =>
  }

  /** Every state is one of the 64. */
  lemma UniverseHolds(s: VacState)
    ensures s in Universe
  {
    var sq := s.squares;
    InStatuses(sq[0]);
    InStatuses(sq[1]);
    InStatuses(sq[2]);
    InStatuses(sq[3]);
    assert sq == [sq[0], sq[1], sq[2], sq[3]];
  }

  lemma UniverseClosed()
    ensures AStar.Closed(Universe, Initial, Successors)
  {
    forall s: VacState | true
      ensures s in Universe
    {
      UniverseHolds(s);
    }
  }

  // ---------------------------------------------------------------------
  // Seven moves are needed and enough.

  /** A bound on the moves left: one Suck per dirty square, and while D is
      dirty the squares between the robot and D. */
  function Remaining(s: VacState): nat {
    Heuristic(s) + (if s.squares[3] == Dirty then 3 - s.loc else 0)
  }

  /** One step lowers the bound by at most one. */
  lemma RemainingStep(s: VacState, e: AStar.Edge<Action, VacState>)
    requires e in Successors(s)
    ensures Remaining(s) <= Remaining(e.1) + 1
  {
    SuccessorMeaning(s, e);
    if e.0 == Suck {
      DirtyCountClean(s.squares, s.loc);
    }
  }

  /** Along a route each step costs 1 and lowers the bound by at most one. */
  lemma {:induction false} RouteBound(start: VacState, r: seq<AStar.Edge<Action, VacState>>, i: nat)
    requires AStar.RouteOk(start, r, Successors) && i <= |r|
    ensures AStar.CostTo(r, i) == i
    ensures Remaining(start) <= Remaining(AStar.At(start, r, i)) + i
  {
    if i > 0 {
      RouteBound(start, r, i - 1);
      assert r[i - 1] in Successors(AStar.At(start, r, i - 1));
      RemainingStep(AStar.At(start, r, i - 1), r[i - 1]);
    }
  }

  /** Every route from the initial state to a goal takes at least seven
      moves. */
  lemma SevenNeeded(r: seq<AStar.Edge<Action, VacState>>)
    requires AStar.GoalRoute(Initial, r, Goal, Successors)
    ensures |r| >= 7 && AStar.CostTo(r, |r|) == |r|
  {
    RouteBound(Initial, r, |r|);
    GoalIffZero(AStar.At(Initial, r, |r|));
    assert Remaining(Initial) == 7;
  }

  /** Suck, Right, Suck, Right, Suck, Right, Suck. */
  const Plan: seq<AStar.Edge<Action, VacState>> := [
    (Suck, State(0, [Clean, Dirty, Dirty, Dirty]), 1),
    (Right, State(1, [Clean, Dirty, Dirty, Dirty]), 1),
    (Suck, State(1, [Clean, Clean, Dirty, Dirty]), 1),
    (Right, State(2, [Clean, Clean, Dirty, Dirty]), 1),
    (Suck, State(2, [Clean, Clean, Clean, Dirty]), 1),
    (Right, State(3, [Clean, Clean, Clean, Dirty]), 1),
    (Suck, State(3, [Clean, Clean, Clean, Clean]), 1)
  ]

  lemma PlanStep(i: nat)
    requires i < |Plan|
    ensures Plan[i] in Successors(AStar.At(Initial, Plan, i))
  {
    var s := AStar.At(Initial, Plan, i);
    if i == 0 {
      assert s.squares[0 := Clean] == [Clean, Dirty, Dirty, Dirty];
      assert Successors(s)[0] == Plan[0];
    } else if i == 1 {
      assert Successors(s)[0] == Plan[1];
    } else if i == 2 {
      assert s.squares[1 := Clean] == [Clean, Clean, Dirty, Dirty];
      assert Successors(s)[0] == Plan[2];
    } else if i == 3 {
      assert Successors(s)[0] == Plan[3];
    } else if i == 4 {
      assert s.squares[2 := Clean] == [Clean, Clean, Clean, Dirty];
      assert Successors(s)[0] == Plan[4];
    } else if i == 5 {
      assert Successors(s)[0] == Plan[5];
    } else {
      assert s.squares[3 := Clean] == [Clean, Clean, Clean, Clean];
      assert Successors(s)[0] == Plan[6];
    }
  }

  /** Seven moves clean all four squares. */
  lemma SevenEnough()
    ensures AStar.GoalRoute(Initial, Plan, Goal, Successors) && AStar.CostTo(Plan, |Plan|) == 7
  {
    forall i | 0 <= i < |Plan|
      ensures Plan[i] in Successors(AStar.At(Initial, Plan, i))
    {
      PlanStep(i);
    }
    RouteBound(Initial, Plan, |Plan|);
  }

  /** What the search promises, for this world: the cost it returns is
      seven and its path has seven moves. */
  lemma {:induction false} SevenFound(path: seq<Action>, cost: EInt)
    requires cost.Fin? || cost == PosInf
    requires cost.Fin? ==> cost.n >= 0 && exists t :: Goal(t) && AStar.Reaches(Initial, path, t, cost.n, Successors)
    requires cost.Fin? ==> forall r :: AStar.GoalRoute(Initial, r, Goal, Successors) ==> cost.n <= AStar.CostTo(r, |r|)
    requires cost == PosInf ==> forall r :: !AStar.GoalRoute(Initial, r, Goal, Successors)
    ensures cost == Fin(7) && |path| == 7
    ensures exists t :: Goal(t) && AStar.Reaches(Initial, path, t, 7, Successors)
  {
    SevenEnough();
    assert cost.Fin?;
    var t :| Goal(t) && AStar.Reaches(Initial, path, t, cost.n, Successors);
    var r :| AStar.RouteOk(Initial, r, Successors) && AStar.Actions(r) == path &&
             AStar.At(Initial, r, |r|) == t && AStar.CostTo(r, |r|) == cost.n;
    SevenNeeded(r);
    assert cost.n <= AStar.CostTo(Plan, |Plan|) == 7;
    assert |path| == |r| == cost.n == 7;
    assert Goal(t) && AStar.Reaches(Initial, path, t, 7, Successors);
  }

  /** The demonstration: A* from the initial state finds a plan of seven
      moves, which reaches a clean world and is the cheapest there is. */
  method Solve() returns (path: seq<Action>, cost: EInt, expanded: nat)
    ensures cost == Fin(7) && |path| == 7
    ensures exists t :: Goal(t) && AStar.Reaches(Initial, path, t, 7, Successors)
    ensures expanded <= |Universe|
  {
    UniverseClosed();
    HeuristicConsistent();
    var explored;
    path, cost, expanded, explored := AStar.Search(Initial, Goal, Successors, Heuristic, Universe);
    SubsetCard(explored, Universe);
    SevenFound(path, cost);
  }
}
