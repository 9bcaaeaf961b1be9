/** The two-square vacuum world of lab_02/exercise_2.py, searched
    breadth-first with an explored set. A state is the robot's square and
    the status of squares A and B; the successor lists are written out. */
module VacuumBfs {
  import opened Wrappers
  import opened SearchNodes
  import GraphSearch

  datatype Square = A | B
  datatype Status = Clean | Dirty

  datatype State = State(loc: Square, a: Status, b: Status)

  /** `STATE_SPACE` as listed: Suck, moving to the other square, in the
      listed order. The entry for (B, Dirty, Clean) lists (B, Clean, Clean):
      the robot stands on the clean square B and square A comes out clean
      (see `ListedEntryBreaksPhysics`). */
  const ListedStateSpace: map<State, seq<State>> :=
    map[State(A, Dirty, Dirty) := [State(A, Clean, Dirty), State(B, Dirty, Dirty)],
        State(A, Clean, Dirty) := [State(B, Clean, Dirty)],
        State(A, Dirty, Clean) := [State(A, Clean, Clean), State(B, Dirty, Clean)],
        State(A, Clean, Clean) := [State(B, Clean, Clean)],
        State(B, Dirty, Dirty) := [State(B, Dirty, Clean), State(A, Dirty, Dirty)],
        State(B, Clean, Dirty) := [State(B, Clean, Clean), State(A, Clean, Dirty)],
        State(B, Dirty, Clean) := [State(B, Clean, Clean), State(A, Dirty, Clean)],
        State(B, Clean, Clean) := []]

  /** The state space with that entry corrected: on a clean square Suck
      changes nothing, and such no-op steps are not listed (as for
      (A, Clean, Dirty)), so only the move to A remains. */
  const CorrectedStateSpace: map<State, seq<State>> :=
    ListedStateSpace[State(B, Dirty, Clean) := [State(A, Dirty, Clean)]]

  const Initial := State(B, Dirty, Dirty)
  const Goal := State(A, Clean, Clean)

  /** `STATE_SPACE[state]`, as listed; all eight states are keys
      (`AllStates`), so the lookup never fails. */
  function Successors(s: State): seq<State> {
    if s in ListedStateSpace then ListedStateSpace[s] else []
  }

  /** The successors in the corrected table. */
  function CorrectedSuccessors(s: State): seq<State> {
    if s in CorrectedStateSpace then CorrectedStateSpace[s] else []
  }

  /** The physics of the world: Suck keeps the robot in place and turns its
      own square from Dirty to Clean; a move takes the robot to the other
      square and changes no status. */
  predicate Physical(s: State, t: State) {
    (t.loc == s.loc &&
     (if s.loc == A then s.a == Dirty && t.a == Clean && t.b == s.b
      else s.b == Dirty && t.b == Clean && t.a == s.a)) ||
    (t.loc != s.loc && t.a == s.a && t.b == s.b)
  }

  /** The eight states: two squares for the robot and two statuses for
      each square. */
  lemma AllStates(s: State)
    ensures s in ListedStateSpace && s in CorrectedStateSpace
    ensures |ListedStateSpace.Keys| == 8
  {
    assert ListedStateSpace.Keys ==
      {State(A, Dirty, Dirty), State(A, Clean, Dirty), State(A, Dirty, Clean), State(A, Clean, Clean),
       State(B, Dirty, Dirty), State(B, Clean, Dirty), State(B, Dirty, Clean), State(B, Clean, Clean)};
    match s
    case State(A, Dirty, Dirty) =>
    case State(A, Clean, Dirty) =>
    case State(A, Dirty, Clean) =>
    case State(A, Clean, Clean) =>
    case State(B, Dirty, Dirty) =>
    case State(B, Clean, Dirty) =>
    case State(B, Dirty, Clean) =>
    case State(B, Clean, Clean) =>
  }

  /** The listed entry for (B, Dirty, Clean) breaks the physics: its first
      successor cleans square A while the robot stays on B. */
  lemma ListedEntryBreaksPhysics()
    ensures State(B, Clean, Clean) in ListedStateSpace[State(B, Dirty, Clean)]
    ensures !Physical(State(B, Dirty, Clean), State(B, Clean, Clean))
  {
    assert ListedStateSpace[State(B, Dirty, Clean)][0] == State(B, Clean, Clean);
  }

  /** Every corrected transition follows the physics, so no square ever
      becomes dirty. */
  lemma SuccessorPhysics(s: State, t: State)
    requires t in CorrectedSuccessors(s)
    ensures Physical(s, t)
    ensures s.a == Clean ==> t.a == Clean
    ensures s.b == Clean ==> t.b == Clean
  {
    match s
    case State(A, Dirty, Dirty) =>
    case State(A, Clean, Dirty) =>
    case State(A, Dirty, Clean) =>
    case State(A, Clean, Clean) =>
    case State(B, Dirty, Dirty) =>
    case State(B, Clean, Dirty) =>
    case State(B, Dirty, Clean) =>
    case State(B, Clean, Clean) =>
  }

  function Ind(b: bool): nat {
    if b then 1 else 0
  }

  /** The work left: a move to A and a Suck for every dirty square. */
  function Work(s: State): nat {
    Ind(s.loc != A) + Ind(s.a == Dirty) + Ind(s.b == Dirty)
  }

  /** Every listed transition does at most one unit of work, the faulty
      entry included: it cleans A without moving there. */
  lemma StepWork(s: State, t: State)
    requires t in Successors(s)
    ensures Work(s) <= Work(t) + 1
  {
    match s
    case State(A, Dirty, Dirty) =>
    case State(A, Clean, Dirty) =>
    case State(A, Dirty, Clean) =>
    case State(A, Clean, Clean) =>
    case State(B, Dirty, Dirty) =>
    case State(B, Clean, Dirty) =>
    case State(B, Dirty, Clean) =>
    case State(B, Clean, Clean) =>
  }

  /** Along a walk of the listed table from the initial state, each step
      does at most one unit of work, so the goal is at least three steps
      away. */
  lemma {:induction false} WalkWork(ss: seq<State>, i: nat)
    requires IsWalk(ss, Initial, Successors) && i < |ss|
    ensures Work(ss[i]) + i >= 3
  {
    if i > 0 {
      WalkWork(ss, i - 1);
      StepWork(ss[i - 1], ss[i]);
    }
  }

  /** Suck on B, move to A, Suck on A. */
  const Plan: seq<State> := [Initial, State(B, Dirty, Clean), State(A, Dirty, Clean), Goal]

  /** Three steps suffice, in the listed and in the corrected table. */
  lemma ShortWalk()
    ensures GraphSearch.GoalWalk(Plan, Initial, Goal, Successors)
    ensures GraphSearch.GoalWalk(Plan, Initial, Goal, CorrectedSuccessors)
  {
    assert Successors(Plan[0])[0] == Plan[1];
    assert Successors(Plan[1])[1] == Plan[2];
    assert Successors(Plan[2])[0] == Plan[3];
    assert CorrectedSuccessors(Plan[1])[0] == Plan[2];
  }

  /** `Plan` is the only three-step walk of the listed table to the goal:
      the goal is listed only as a successor of (A, Dirty, Clean), which
      only (B, Dirty, Clean) lists among the initial state's successors.
      The faulty entry leads to (B, Clean, Clean), which lists nothing. */
  lemma OnlyShortWalk(ss: seq<State>)
    requires GraphSearch.GoalWalk(ss, Initial, Goal, Successors) && |ss| == 4
    ensures ss == Plan
  {
    assert ss[1] in Successors(ss[0]) && ss[2] in Successors(ss[1]) && ss[3] in Successors(ss[2]);
    assert ss[2] == State(A, Dirty, Clean) by {
      match ss[2]
      case State(A, Dirty, Clean) =>
      case State(A, Dirty, Dirty) =>
      case State(A, Clean, Dirty) =>
      case State(A, Clean, Clean) =>
      case State(B, Dirty, Dirty) =>
      case State(B, Clean, Dirty) =>
      case State(B, Dirty, Clean) =>
      case State(B, Clean, Clean) =>
    }
    assert ss[1] == State(B, Dirty, Clean);
  }

  /** `TREE_SEARCH` on the listed table: it finds the path (B, Dirty, Dirty),
      (B, Dirty, Clean), (A, Dirty, Clean), (A, Clean, Clean), a walk through
      the state space of four states, which is the fewest possible (three
      actions); at most eight states are expanded. */
  method Solve() returns (path: Option<seq<Node<State>>>, ghost expanded: seq<State>)
    ensures path.Some?
    ensures IsWalk(States(path.value), Initial, Successors)
    ensures States(path.value) == Plan
    ensures forall ss :: GraphSearch.GoalWalk(ss, Initial, Goal, Successors) ==> |path.value| <= |ss|
    ensures forall i, j :: 0 <= i < j < |expanded| ==> expanded[i] != expanded[j]
    ensures |expanded| <= 8
  {
    forall s: State
      ensures s in ListedStateSpace
    {
      AllStates(s);
    }
    AllStates(Initial);
    path, expanded := GraphSearch.Search(Initial, Goal, Successors, ListedStateSpace.Keys);
    ShortWalk();
    WalkWork(States(path.value), |path.value| - 1);
    OnlyShortWalk(States(path.value));
  }
}
